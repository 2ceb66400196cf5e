/** Models of the parts of Rust's `str` and `char` API that the blog server
    relies on: character classes, splitting, trimming, searching, joining and
    line iteration. A string is a sequence of Unicode scalar values, which is
    what Rust's `chars()` yields. */
module Strings {
  import opened Wrappers

  // ---------------------------------------------------------------------
  // Characters
  // ---------------------------------------------------------------------

  /** `char::is_whitespace`: the Unicode White_Space property. */
  predicate IsWhitespace(c: char) {
    ('\t' <= c <= '\r') || c == ' ' || c == '\U{0085}' || c == '\U{00A0}'
    || c == '\U{1680}' || ('\U{2000}' <= c <= '\U{200A}') || c == '\U{2028}'
    || c == '\U{2029}' || c == '\U{202F}' || c == '\U{205F}' || c == '\U{3000}'
  }

  /** `char::is_alphanumeric`, restricted to ASCII letters and digits. */
  predicate IsAlphanumeric(c: char) {
    ('a' <= c <= 'z') || ('A' <= c <= 'Z') || ('0' <= c <= '9')
  }

  predicate IsUpper(c: char) {
    'A' <= c <= 'Z'
  }

  /** `char::to_lowercase`, restricted to ASCII. */
  function LowerChar(c: char): (r: char)
    ensures !IsUpper(r)
    ensures IsAlphanumeric(r) <==> IsAlphanumeric(c)
    ensures IsWhitespace(r) <==> IsWhitespace(c)
    ensures !IsUpper(c) ==> r == c
  {
    if IsUpper(c) then (c as int + 32) as char else c
  }

  /** `str::to_lowercase`, character by character. */
  function Lower(s: string): (r: string)
    ensures |r| == |s|
    ensures forall i :: 0 <= i < |s| ==> r[i] == LowerChar(s[i])
  {
    seq(|s|, i requires 0 <= i < |s| => LowerChar(s[i]))
  }

  lemma LowerAppend(a: string, b: string)
    ensures Lower(a + b) == Lower(a) + Lower(b)
  {
    assert forall i :: 0 <= i < |a + b| ==> Lower(a + b)[i] == (Lower(a) + Lower(b))[i];
  }

  /** The character patterns the source passes to `split`, `trim_matches`
      and `split_whitespace`. */
  datatype CharClass = Exactly(c: char) | Either(a: char, b: char) | Whitespace | NonAlphanumeric

  predicate InClass(c: char, k: CharClass) {
    match k
    case Exactly(d) => c == d
    case Either(a, b) => c == a || c == b
    case Whitespace => IsWhitespace(c)
    case NonAlphanumeric => !IsAlphanumeric(c)
  }

  /** No character of `s` belongs to `k`. */
  predicate Clean(s: string, k: CharClass) {
    forall i :: 0 <= i < |s| ==> !InClass(s[i], k)
  }

  /** `str::replace` with single characters: every `a` becomes `b`. */
  function ReplaceChar(s: string, a: char, b: char): (r: string)
    ensures |r| == |s|
    ensures a != b ==> a !in r
    ensures forall i :: 0 <= i < |s| && s[i] != a ==> r[i] == s[i]
    ensures forall i :: 0 <= i < |s| && s[i] == a ==> r[i] == b
  {
    seq(|s|, i requires 0 <= i < |s| => if s[i] == a then b else s[i])
  }

  /** The characters of `s` outside `k`, in order. */
  function Remove(s: string, k: CharClass): (r: string)
    ensures Clean(r, k)
  {
    if s == [] then [] else (if InClass(s[0], k) then [] else [s[0]]) + Remove(s[1..], k)
  }

  // ---------------------------------------------------------------------
  // Sequences of strings
  // ---------------------------------------------------------------------

  function Concat(ps: seq<string>): string {
    if ps == [] then [] else ps[0] + Concat(ps[1..])
  }

  /** `[String]::join(sep)`. */
  function Join(ps: seq<string>, sep: string): string {
    if |ps| == 0 then [] else if |ps| == 1 then ps[0] else ps[0] + sep + Join(ps[1..], sep)
  }

  /** `filter(|s| !s.is_empty())`. */
  function NonEmpty(ps: seq<string>): (r: seq<string>)
    ensures |r| <= |ps|
    ensures forall i :: 0 <= i < |r| ==> r[i] != []
    ensures forall x :: x in r <==> x in ps && x != []
  {
    if ps == [] then [] else (if ps[0] == [] then [] else [ps[0]]) + NonEmpty(ps[1..])
  }

  lemma {:induction false} NonEmptyAppend(a: seq<string>, b: seq<string>)
    ensures NonEmpty(a + b) == NonEmpty(a) + NonEmpty(b)
  {
    if a != [] {
      assert (a + b)[0] == a[0];
      assert (a + b)[1..] == a[1..] + b;
      NonEmptyAppend(a[1..], b);
      var h: seq<string> := if a[0] == [] then [] else [a[0]];
      calc {
        NonEmpty(a + b);
        h + NonEmpty(a[1..] + b);
        h + (NonEmpty(a[1..]) + NonEmpty(b));
        (h + NonEmpty(a[1..])) + NonEmpty(b);
      }
    } else {
      assert a + b == b;
    }
  }

  lemma {:induction false} ConcatNonEmpty(ps: seq<string>)
    ensures Concat(NonEmpty(ps)) == Concat(ps)
  {
    if ps != [] {
      ConcatNonEmpty(ps[1..]);
      assert NonEmpty(ps) == (if ps[0] == [] then [] else [ps[0]]) + NonEmpty(ps[1..]);
      ConcatAppend(if ps[0] == [] then [] else [ps[0]], NonEmpty(ps[1..]));
    }
  }

  lemma {:induction false} ConcatAppend(a: seq<string>, b: seq<string>)
    ensures Concat(a + b) == Concat(a) + Concat(b)
  {
    if a != [] {
      assert (a + b)[0] == a[0];
      assert (a + b)[1..] == a[1..] + b;
      ConcatAppend(a[1..], b);
      calc {
        Concat(a + b);
        a[0] + Concat(a[1..] + b);
        a[0] + (Concat(a[1..]) + Concat(b));
        (a[0] + Concat(a[1..])) + Concat(b);
      }
    } else {
      assert a + b == b;
    }
  }

  // ---------------------------------------------------------------------
  // split
  // ---------------------------------------------------------------------

  /** `str::split` with a character pattern: the pieces between separators,
      empty ones included, so never an empty list. */
  function Fields(s: string, k: CharClass): (r: seq<string>)
    ensures |r| >= 1
    decreases |s|
  {
    if s == [] then [[]]
    else
      var rest := Fields(s[1..], k);
      if InClass(s[0], k) then [[]] + rest
      else [[s[0]] + rest[0]] + rest[1..]
  }

  /** The pieces hold no separator and only characters of `s`; the first
      one is the prefix of `s` up to the first separator. */
  lemma {:induction false} FieldsShape(s: string, k: CharClass)
    ensures var r := Fields(s, k);
      (forall i, j :: 0 <= i < |r| && 0 <= j < |r[i]| ==> !InClass(r[i][j], k)) &&
      |r[0]| <= |s| && r[0] == s[..|r[0]|] &&
      (|r[0]| < |s| ==> InClass(s[|r[0]|], k)) &&
      (forall i, j :: 0 <= i < |r| && 0 <= j < |r[i]| ==> r[i][j] in s)
    decreases |s|
  {
    if s != [] {
      FieldsShape(s[1..], k);
    }
  }

  /** `str::split(c)` for a single character `c`. */
  function Split(s: string, c: char): seq<string> {
    Fields(s, Exactly(c))
  }

  lemma {:induction false} FieldsOfClean(a: string, k: CharClass)
    requires Clean(a, k)
    ensures Fields(a, k) == [a]
    decreases |a|
  {
    if a != [] {
      assert !InClass(a[0], k);
      assert Clean(a[1..], k) by {
        forall i | 0 <= i < |a[1..]| ensures !InClass(a[1..][i], k) {
          assert a[1..][i] == a[i + 1];
        }
      }
      FieldsOfClean(a[1..], k);
      assert [a[0]] + a[1..] == a;
    }
  }

  /** A piece free of separators, then a separator: the piece comes first. */
  lemma {:induction false} FieldsAfterSeparator(a: string, c: char, b: string, k: CharClass)
    requires Clean(a, k) && InClass(c, k)
    ensures Fields(a + [c] + b, k) == [a] + Fields(b, k)
    decreases |a|
  {
    var s := a + [c] + b;
    if a == [] {
      assert s[1..] == b;
    } else {
      assert s[0] == a[0] && !InClass(a[0], k);
      assert s[1..] == a[1..] + [c] + b;
      assert Clean(a[1..], k) by {
        forall i | 0 <= i < |a[1..]| ensures !InClass(a[1..][i], k) {
          assert a[1..][i] == a[i + 1];
        }
      }
      FieldsAfterSeparator(a[1..], c, b, k);
      var rest := Fields(s[1..], k);
      assert rest == [a[1..]] + Fields(b, k);
      assert [s[0]] + rest[0] == a;
    }
  }

  /** What the pieces hold is exactly what is left once the separators are removed. */
  lemma {:induction false} FieldsConcat(s: string, k: CharClass)
    ensures Concat(Fields(s, k)) == Remove(s, k)
    decreases |s|
  {
    if s != [] {
      var rest := Fields(s[1..], k);
      FieldsConcat(s[1..], k);
      if !InClass(s[0], k) {
        assert rest == [rest[0]] + rest[1..];
        assert Concat(rest) == rest[0] + Concat(rest[1..]);
      }
    }
  }

  // ---------------------------------------------------------------------
  // split_whitespace
  // ---------------------------------------------------------------------

  /** `str::split_whitespace`: the maximal runs of non-whitespace characters. */
  function Words(s: string): seq<string> {
    NonEmpty(Fields(s, Whitespace))
  }

  /** An independent count of words: the positions where a non-whitespace
      character follows whitespace or the start of the text. */
  function WordStarts(s: string, afterSpace: bool): nat {
    if s == [] then 0
    else (if afterSpace && !IsWhitespace(s[0]) then 1 else 0) + WordStarts(s[1..], IsWhitespace(s[0]))
  }

  /** `split_whitespace().count()` counts word starts. */
  lemma WordCount(s: string)
    ensures |Words(s)| == WordStarts(s, true)
  {
    WordsAfterFirst(s);
    var f := Fields(s, Whitespace);
    assert f == [f[0]] + f[1..];
    NonEmptyAppend([f[0]], f[1..]);
  }

  lemma {:induction false} WordsAfterFirst(s: string)
    ensures |NonEmpty(Fields(s, Whitespace)[1..])| == WordStarts(s, false)
    decreases |s|
  {
    if s != [] {
      var rest := Fields(s[1..], Whitespace);
      WordsAfterFirst(s[1..]);
      if IsWhitespace(s[0]) {
        assert Fields(s, Whitespace)[1..] == rest;
        assert rest == [rest[0]] + rest[1..];
        NonEmptyAppend([rest[0]], rest[1..]);
      } else {
        assert Fields(s, Whitespace)[1..] == rest[1..];
      }
    }
  }

  // ---------------------------------------------------------------------
  // trim, trim_matches
  // ---------------------------------------------------------------------

  /** Every character of `s` belongs to `k`. */
  predicate Within(s: string, k: CharClass) {
    forall i :: 0 <= i < |s| ==> InClass(s[i], k)
  }

  /** The length of the longest prefix of `s` within `k`. */
  function Leading(s: string, k: CharClass): (n: nat)
    ensures n <= |s| && Within(s[..n], k)
    ensures n < |s| ==> !InClass(s[n], k)
    decreases |s|
  {
    if s != [] && InClass(s[0], k) then
      var m := Leading(s[1..], k);
      assert s[..m + 1] == [s[0]] + s[1..][..m];
      1 + m
    else 0
  }

  /** The length of `s` without its longest suffix within `k`. */
  function Kept(s: string, k: CharClass): (n: nat)
    ensures n <= |s| && Within(s[n..], k)
    ensures n > 0 ==> !InClass(s[n - 1], k)
    decreases |s|
  {
    if s != [] && InClass(s[|s| - 1], k) then
      var m := Kept(s[..|s| - 1], k);
      assert s[m..] == s[..|s| - 1][m..] + [s[|s| - 1]];
      m
    else |s|
  }

  /** `trim_start_matches`: drop the leading characters of class `k`. */
  function TrimStart(s: string, k: CharClass): (r: string)
    ensures r != [] ==> !InClass(r[0], k)
  {
    s[Leading(s, k)..]
  }

  /** `trim_end_matches`: drop the trailing characters of class `k`. */
  function TrimEnd(s: string, k: CharClass): (r: string)
    ensures r != [] ==> !InClass(r[|r| - 1], k)
  {
    s[..Kept(s, k)]
  }

  /** `trim_matches` (and `trim` for `Whitespace`): both ends. */
  function Trim(s: string, k: CharClass): (r: string)
    ensures r != [] ==> !InClass(r[0], k) && !InClass(r[|r| - 1], k)
  {
    TrimEnd(TrimStart(s, k), k)
  }

  /** Neither end of `s` belongs to `k`. */
  predicate Bare(s: string, k: CharClass) {
    s == [] || (!InClass(s[0], k) && !InClass(s[|s| - 1], k))
  }

  lemma TrimBare(s: string, k: CharClass)
    requires Bare(s, k)
    ensures Trim(s, k) == s
  {
    assert s[0..] == s;
    assert s[..|s|] == s;
  }

  /** Characters of the class before a bare text are all that trimming removes. */
  lemma TrimAfterSpace(p: string, s: string, k: CharClass)
    requires Within(p, k) && Bare(s, k)
    ensures Trim(p + s, k) == s
  {
    TrimStartPast(p, s, k);
    TrimBare(s, k);
  }

  /** Trimming leaves nothing exactly when every character is of the class. */
  lemma TrimEmpty(s: string, k: CharClass)
    ensures Trim(s, k) == [] <==> Within(s, k)
  {
    var a := Leading(s, k);
    var t := s[a..];
    assert s == s[..a] + t;
    if Trim(s, k) == [] {
      assert t == [] by {
        assert Kept(t, k) == 0;
        assert t[0..] == t;
      }
      assert s[..a] == s;
    }
  }

  /** Characters of the class on either side of a bare text are all that
      trimming removes. */
  lemma TrimPadded(p: string, s: string, q: string, k: CharClass)
    requires Within(p, k) && Within(q, k) && Bare(s, k)
    ensures Trim(p + s + q, k) == s
  {
    assert p + s + q == p + (s + q);
    TrimStartPast(p, s + q, k);
    if s == [] {
      assert s + q == q;
      TrimEmpty(q, k);
    } else {
      assert (s + q)[0] == s[0];
      assert (s + q)[0..] == s + q;
      TrimEndPast(s, q, k);
      assert s[..|s|] == s;
    }
  }

  /** Trimming adds no character: what is clean of a class stays clean. */
  lemma TrimClean(s: string, k: CharClass, other: CharClass)
    requires Clean(s, other)
    ensures Clean(Trim(s, k), other)
  {
    var a := Leading(s, k);
    var t := s[a..];
    var b := Kept(t, k);
    assert Trim(s, k) == t[..b];
    forall i | 0 <= i < b ensures !InClass(t[..b][i], other) {
      assert t[..b][i] == s[a + i];
    }
  }

  /** Leading characters of the class are dropped whatever follows them. */
  lemma {:induction false} TrimStartPast(p: string, s: string, k: CharClass)
    requires Within(p, k)
    ensures TrimStart(p + s, k) == TrimStart(s, k)
    decreases |p|
  {
    LeadingPast(p, s, k);
    assert (p + s)[|p| + Leading(s, k)..] == s[Leading(s, k)..];
  }

  lemma {:induction false} LeadingPast(p: string, s: string, k: CharClass)
    requires Within(p, k)
    ensures Leading(p + s, k) == |p| + Leading(s, k)
    decreases |p|
  {
    if p == [] {
      assert p + s == s;
    } else {
      var t := p + s;
      assert t[0] == p[0];
      assert t[1..] == p[1..] + s;
      assert Within(p[1..], k) by {
        forall i | 0 <= i < |p[1..]| ensures InClass(p[1..][i], k) {
          assert p[1..][i] == p[i + 1];
        }
      }
      LeadingPast(p[1..], s, k);
    }
  }

  /** Trailing characters of the class are dropped whatever precedes them. */
  lemma {:induction false} TrimEndPast(s: string, p: string, k: CharClass)
    requires Within(p, k)
    ensures TrimEnd(s + p, k) == TrimEnd(s, k)
    decreases |p|
  {
    KeptPast(s, p, k);
    assert (s + p)[..Kept(s, k)] == s[..Kept(s, k)];
  }

  lemma WithinInit(p: string, k: CharClass)
    requires Within(p, k) && p != []
    ensures Within(p[..|p| - 1], k) && InClass(p[|p| - 1], k)
  {
  }

  lemma {:induction false} KeptPast(s: string, p: string, k: CharClass)
    requires Within(p, k)
    ensures Kept(s + p, k) == Kept(s, k)
    decreases |p|
  {
    if p == [] {
      assert s + p == s;
    } else {
      var t := s + p;
      var q := p[..|p| - 1];
      assert t[|t| - 1] == p[|p| - 1];
      assert t[..|t| - 1] == s + q;
      WithinInit(p, k);
      KeptPast(s, q, k);
    }
  }

  // ---------------------------------------------------------------------
  // Substring search
  // ---------------------------------------------------------------------

  /** `pat` occurs in `s` at index `k`. */
  predicate MatchAt(s: string, pat: string, k: int) {
    0 <= k && k + |pat| <= |s| && s[k..k + |pat|] == pat
  }

  /** `pat` occurs nowhere in `s`. */
  predicate Free(s: string, pat: string) {
    forall k :: 0 <= k <= |s| - |pat| ==> !MatchAt(s, pat, k)
  }

  /** The leftmost occurrence of `pat` at or after `from`, the way Rust's
      substring searcher finds it. */
  function Find(s: string, pat: string, from: nat): (r: Option<nat>)
    ensures r.Some? ==> from <= r.value && MatchAt(s, pat, r.value)
    decreases |s| - from
  {
    if from + |pat| > |s| then None
    else if MatchAt(s, pat, from) then Some(from)
    else Find(s, pat, from + 1)
  }

  /** `Find` returns the leftmost occurrence, and nothing only when there is
      none at or after `from`. */
  lemma {:induction false} FindLeftmost(s: string, pat: string, from: nat)
    ensures Find(s, pat, from).Some? ==> forall j :: from <= j < Find(s, pat, from).value ==> !MatchAt(s, pat, j)
    ensures Find(s, pat, from).None? ==> forall j :: from <= j ==> !MatchAt(s, pat, j)
    decreases |s| - from
  {
    if from + |pat| <= |s| && !MatchAt(s, pat, from) {
      FindLeftmost(s, pat, from + 1);
    }
  }

  /** The first occurrence at or after `from` is what `Find` returns. */
  lemma {:induction false} FindFirst(s: string, pat: string, from: nat, k: nat)
    requires from <= k && MatchAt(s, pat, k)
    requires forall j :: from <= j < k ==> !MatchAt(s, pat, j)
    ensures Find(s, pat, from) == Some(k)
    decreases k - from
  {
    if from < k {
      FindFirst(s, pat, from + 1, k);
    }
  }

  /** `str::contains`. */
  predicate Contains(hay: string, needle: string) {
    Find(hay, needle, 0).Some?
  }

  /** `Contains` holds exactly when the needle occurs somewhere. */
  lemma ContainsMatch(hay: string, needle: string)
    ensures Contains(hay, needle) <==> exists k :: MatchAt(hay, needle, k)
  {
    FindLeftmost(hay, needle, 0);
  }

  /** `str::starts_with`. */
  predicate StartsWith(s: string, p: string) {
    |p| <= |s| && s[..|p|] == p
  }

  /** `str::split_once` with a string pattern. */
  function SplitOnceStr(s: string, pat: string): (r: Option<(string, string)>)
    ensures r.Some? ==> s == r.value.0 + pat + r.value.1
  {
    match Find(s, pat, 0)
    case None => None
    case Some(k) =>
      assert s == s[..k] + pat + s[k + |pat|..] by {
        assert s[k..k + |pat|] == pat;
      }
      Some((s[..k], s[k + |pat|..]))
  }

  /** `split_once` finds nothing exactly in a text free of the pattern,
      and otherwise splits at its first occurrence. */
  lemma SplitOnceStrFirst(s: string, pat: string)
    ensures SplitOnceStr(s, pat).None? <==> Free(s, pat)
    ensures SplitOnceStr(s, pat).Some? ==> forall j :: j < |SplitOnceStr(s, pat).value.0| ==> !MatchAt(s, pat, j)
  {
    FindLeftmost(s, pat, 0);
  }

  /** `split_once` stops at the first occurrence of the pattern. */
  lemma SplitOnceStrAt(a: string, pat: string, b: string)
    requires forall j :: 0 <= j < |a| ==> !MatchAt(a + pat + b, pat, j)
    ensures SplitOnceStr(a + pat + b, pat) == Some((a, b))
  {
    var s := a + pat + b;
    assert MatchAt(s, pat, |a|) by { assert s[|a|..|a| + |pat|] == pat; }
    FindFirst(s, pat, 0, |a|);
    assert s[..|a|] == a && s[|a| + |pat|..] == b;
  }

  /** `splitn(2, c)` for a character `c`: the text before the first `c` and
      the text after it, or nothing when `c` does not occur. */
  function SplitOnce(s: string, c: char): (r: Option<(string, string)>)
    ensures r.None? <==> c !in s
    ensures r.Some? ==> s == r.value.0 + [c] + r.value.1 && c !in r.value.0
  {
    if s == [] then None
    else if s[0] == c then Some(([], s[1..]))
    else match SplitOnce(s[1..], c)
      case None => None
      case Some((a, b)) => Some(([s[0]] + a, b))
  }

  lemma {:induction false} SplitOnceAt(a: string, c: char, b: string)
    requires c !in a
    ensures SplitOnce(a + [c] + b, c) == Some((a, b))
  {
    var s := a + [c] + b;
    if a == [] {
      assert s[1..] == b;
    } else {
      assert s[0] == a[0] && a[0] != c;
      assert s[1..] == a[1..] + [c] + b;
      SplitOnceAt(a[1..], c, b);
      assert [a[0]] + a[1..] == a;
    }
  }

  // ---------------------------------------------------------------------
  // lines
  // ---------------------------------------------------------------------

  /** A '\r' right before a line's '\n' is part of the line ending. */
  function StripCr(l: string): string {
    if l != [] && l[|l| - 1] == '\r' then l[..|l| - 1] else l
  }

  /** `str::lines`: split at '\n', drop a '\r' that precedes a '\n', and
      yield no empty line after a final '\n'. */
  function Lines(s: string): (r: seq<string>)
    ensures forall i :: 0 <= i < |r| ==> '\n' !in r[i]
    decreases |s|
  {
    match SplitOnce(s, '\n')
    case None => if s == [] then [] else [s]
    case Some((line, rest)) => [StripCr(line)] + Lines(rest)
  }

  /** Each line followed by '\n'. */
  function JoinLines(ls: seq<string>): string {
    if ls == [] then [] else ls[0] + "\n" + JoinLines(ls[1..])
  }

  /** A line that `lines()` hands back unchanged. */
  predicate PlainLine(l: string) {
    '\n' !in l && (l == [] || l[|l| - 1] != '\r')
  }

  /** Reading back lines written one per '\n' gives the same lines. */
  lemma {:induction false} LinesOfJoinLines(ls: seq<string>)
    requires forall i :: 0 <= i < |ls| ==> PlainLine(ls[i])
    ensures Lines(JoinLines(ls)) == ls
  {
    if ls != [] {
      SplitOnceAt(ls[0], '\n', JoinLines(ls[1..]));
      LinesOfJoinLines(ls[1..]);
    }
  }

  lemma LinesAfterNewline(s: string)
    ensures Lines("\n" + s) == [[]] + Lines(s)
  {
    SplitOnceAt([], '\n', s);
    assert [] + ['\n'] + s == "\n" + s;
  }
}
