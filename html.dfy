/** The tag stripper the search handler runs over rendered post HTML before
    matching: a two-state scanner that drops everything from a `<` up to the
    next `>`. */
module Html {

  /** The characters the scanner emits from `s` when it starts inside a tag
      (`inTag`) or outside one. */
  function Visible(s: string, inTag: bool): (r: string)
    ensures |r| <= |s|
    ensures '<' !in r && '>' !in r
    decreases |s|
  {
    if s == [] then []
    else if s[0] == '<' then Visible(s[1..], true)
    else if s[0] == '>' then Visible(s[1..], false)
    else if !inTag then [s[0]] + Visible(s[1..], inTag)
    else Visible(s[1..], inTag)
  }

  /** Whether the scanner is inside a tag after reading `s`. */
  function InTagAfter(s: string, inTag: bool): bool
    decreases |s|
  {
    if s == [] then inTag
    else InTagAfter(s[1..], if s[0] == '<' then true else if s[0] == '>' then false else inTag)
  }

  /** `strip_html_tags`: the scanner starts outside any tag. */
  function StripTags(s: string): string {
    Visible(s, false)
  }

  predicate TagFree(s: string) {
    '<' !in s && '>' !in s
  }

  /** `strip_html_tags` as the source writes it: one pass, pushing every
      character met outside a tag. */
  method StripHtmlTags(input: string) returns (output: string)
    ensures output == StripTags(input)
    ensures TagFree(output)
  {
    output := [];
    var inTag := false;
    for i := 0 to |input|
      invariant output + Visible(input[i..], inTag) == StripTags(input)
    {
      var c := input[i];
      assert input[i..] == [c] + input[i + 1..];
      if c == '<' {
        inTag := true;
      } else if c == '>' {
        inTag := false;
      } else if !inTag {
        output := output + [c];
      }
    }
  }

  /** `a` can be obtained from `b` by deleting characters. */
  predicate IsSubsequence(a: string, b: string)
    decreases |b|
  {
    if a == [] then true
    else if b == [] then false
    else (a[0] == b[0] && IsSubsequence(a[1..], b[1..])) || IsSubsequence(a, b[1..])
  }

  /** The scanner only deletes: its output is a subsequence of its input. */
  lemma {:induction false} VisibleSubsequence(s: string, inTag: bool)
    ensures IsSubsequence(Visible(s, inTag), s)
    decreases |s|
  {
    if s != [] {
      VisibleSubsequence(s[1..], s[0] == '<' || (s[0] != '>' && inTag));
      var rest := Visible(s[1..], s[0] == '<' || (s[0] != '>' && inTag));
      if s[0] != '<' && s[0] != '>' && !inTag {
        assert Visible(s, inTag) == [s[0]] + rest;
        assert ([s[0]] + rest)[1..] == rest;
      } else {
        SkipFirst(rest, s);
      }
    }
  }

  lemma SkipFirst(a: string, b: string)
    requires b != [] && IsSubsequence(a, b[1..])
    ensures IsSubsequence(a, b)
  {
  }

  lemma StripSubsequence(s: string)
    ensures IsSubsequence(StripTags(s), s)
  {
    VisibleSubsequence(s, false);
  }

  /** Text without angle brackets passes through unchanged. */
  lemma {:induction false} TagFreeUnchanged(s: string)
    requires TagFree(s)
    ensures StripTags(s) == s
    decreases |s|
  {
    if s != [] {
      assert s == [s[0]] + s[1..];
      TagFreeUnchanged(s[1..]);
    }
  }

  /** Stripping twice is stripping once. */
  lemma StripIdempotent(s: string)
    ensures StripTags(StripTags(s)) == StripTags(s)
  {
    TagFreeUnchanged(StripTags(s));
  }

  /** The scanner works piecewise: the second part starts in the state the
      first part leaves behind. */
  lemma {:induction false} VisibleAppend(a: string, b: string, inTag: bool)
    ensures Visible(a + b, inTag) == Visible(a, inTag) + Visible(b, InTagAfter(a, inTag))
    decreases |a|
  {
    if a == [] {
      assert a + b == b;
    } else {
      assert (a + b)[1..] == a[1..] + b;
      VisibleAppend(a[1..], b, if a[0] == '<' then true else if a[0] == '>' then false else inTag);
    }
  }

  lemma {:induction false} InTagAfterAppend(a: string, b: string, inTag: bool)
    ensures InTagAfter(a + b, inTag) == InTagAfter(b, InTagAfter(a, inTag))
    decreases |a|
  {
    if a == [] {
      assert a + b == b;
    } else {
      assert (a + b)[1..] == a[1..] + b;
      InTagAfterAppend(a[1..], b, if a[0] == '<' then true else if a[0] == '>' then false else inTag);
    }
  }

  /** Text between tags is kept, in order: after a prefix that ends outside a
      tag, tag-free text `t` appears as it is. */
  lemma TextKept(p: string, t: string, q: string)
    requires !InTagAfter(p, false) && TagFree(t)
    ensures StripTags(p + t + q) == StripTags(p) + t + StripTags(q)
  {
    VisibleAppend(p + t, q, false);
    VisibleAppend(p, t, false);
    InTagAfterAppend(p, t, false);
    TagFreeUnchanged(t);
    TagFreeState(t, false);
  }

  lemma {:induction false} TagFreeState(t: string, inTag: bool)
    requires TagFree(t)
    ensures InTagAfter(t, inTag) == inTag
    decreases |t|
  {
    if t != [] {
      assert t[0] in t;
      assert forall c :: c in t[1..] ==> c in t;
      TagFreeState(t[1..], inTag);
    }
  }

  /** A tag `<x>` disappears, along with everything in it. */
  lemma TagDropped(x: string, q: string)
    requires '>' !in x
    ensures StripTags("<" + x + ">" + q) == StripTags(q)
  {
    assert "<" + x + ">" + q == ("<" + x) + (">" + q);
    VisibleAppend("<" + x, ">" + q, false);
    InsideTag(x);
    VisibleAppend("<", x, false);
    InTagAfterAppend("<", x, false);
    assert (">" + q)[1..] == q;
  }

  lemma {:induction false} InsideTag(x: string)
    requires '>' !in x
    ensures Visible(x, true) == [] && InTagAfter(x, true)
    decreases |x|
  {
    if x != [] {
      assert forall c :: c in x[1..] ==> c in x;
      assert x[0] in x;
      InsideTag(x[1..]);
    }
  }
}
