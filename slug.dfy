/**
 * `slugify` (script.js): an entry's identity key and Markdown file stem,
 * derived from its title in four steps, in this order:
 *   lower-case; replace every run of characters outside [a-z0-9] by one '-';
 *   strip hyphens at both ends; keep the first 60 characters.
 * Because the cut comes after the strip, the result can end in '-'.
 */
module Slug {
  import opened Text

  const MaxSlugLength: nat := 60

  predicate IsSlugChar(c: char)
  {
    'a' <= c <= 'z' || '0' <= c <= '9'
  }

  /** Every character is in [a-z0-9-]. */
  ghost predicate SlugAlphabet(s: string)
  {
    forall i :: 0 <= i < |s| ==> IsSlugChar(s[i]) || s[i] == '-'
  }

  ghost predicate NoDoubleHyphen(s: string)
  {
    forall i, j :: 0 <= i < j < |s| && j == i + 1 ==> !(s[i] == '-' && s[j] == '-')
  }

  predicate EndsWithHyphen(s: string)
  {
    s != [] && s[|s| - 1] == '-'
  }

  /** Drops the run of characters outside [a-z0-9] that starts `s`. */
  function SkipRun(s: string): (r: string)
    ensures |r| <= |s| && r == s[|s| - |r|..]
    ensures r == [] || IsSlugChar(r[0])
  {
    if s != [] && !IsSlugChar(s[0]) then
      var r := SkipRun(s[1..]);
      assert s[1..][|s| - 1 - |r|..] == s[|s| - |r|..];
      r
    else s
  }

  /** `replace(/[^a-z0-9]+/g, '-')`: each maximal run of characters outside
      [a-z0-9] becomes a single hyphen. */
  function CollapseRuns(s: string): string
    decreases |s|
  {
    if s == [] then []
    else if IsSlugChar(s[0]) then [s[0]] + CollapseRuns(s[1..])
    else ['-'] + CollapseRuns(SkipRun(s[1..]))
  }

  /** The collapsed string is in [a-z0-9-], has no "--", is no longer than
      its input, and starts as the input does when that starts with a slug
      character. */
  lemma {:induction false} CollapseRunsShape(s: string)
    ensures var r := CollapseRuns(s);
      && |r| <= |s| && SlugAlphabet(r) && NoDoubleHyphen(r)
      && (s != [] && IsSlugChar(s[0]) ==> r != [] && r[0] == s[0])
    decreases |s|
  {
    if s != [] {
      var h := if IsSlugChar(s[0]) then s[0] else '-';
      var rest := if IsSlugChar(s[0]) then s[1..] else SkipRun(s[1..]);
      CollapseRunsShape(rest);
      var t := CollapseRuns(rest);
      assert CollapseRuns(s) == [h] + t;
      ConsKeepsShape(h, t);
    }
  }

  /** A slug character, or a hyphen not followed by one, in front of a
      string in [a-z0-9-] without "--" gives another such string. */
  lemma ConsKeepsShape(h: char, t: string)
    requires IsSlugChar(h) || h == '-'
    requires SlugAlphabet(t) && NoDoubleHyphen(t)
    requires h == '-' ==> t == [] || IsSlugChar(t[0])
    ensures SlugAlphabet([h] + t) && NoDoubleHyphen([h] + t)
  {
    var r := [h] + t;
    forall k | 0 <= k < |r| ensures IsSlugChar(r[k]) || r[k] == '-' {
      if k > 0 {
        assert r[k] == t[k - 1];
      }
    }
    forall k, m | 0 <= k < m < |r| && m == k + 1 ensures !(r[k] == '-' && r[m] == '-') {
      assert r[m] == t[m - 1];
      if k > 0 {
        assert r[k] == t[k - 1];
      }
    }
  }

  /** Every character of `x` is a hyphen. */
  predicate AllHyphens(x: string)
  {
    forall i :: 0 <= i < |x| ==> x[i] == '-'
  }

  /** `replace(/^-+|-+$/g, '')` */
  function TrimHyphens(s: string): (r: string)
    ensures LeadingHyphens(s) + |r| <= |s|
    ensures r == s[LeadingHyphens(s)..LeadingHyphens(s) + |r|]
    ensures r == [] || (r[0] != '-' && r[|r| - 1] != '-')
    ensures (s == [] || (s[0] != '-' && s[|s| - 1] != '-')) ==> r == s
    ensures AllHyphens(s[..LeadingHyphens(s)]) && AllHyphens(s[LeadingHyphens(s) + |r|..])
  {
    TrimTrailingHyphens(TrimLeadingHyphens(s))
  }

  /** How many hyphens `s` starts with. */
  function LeadingHyphens(s: string): (n: nat)
    ensures n <= |s|
  {
    |s| - |TrimLeadingHyphens(s)|
  }

  function TrimLeadingHyphens(s: string): (r: string)
    ensures |r| <= |s| && r == s[|s| - |r|..]
    ensures r == [] || r[0] != '-'
    ensures (s == [] || s[0] != '-') ==> r == s
    ensures AllHyphens(s[..|s| - |r|])
  {
    if s != [] && s[0] == '-' then
      TrimLeadingHyphens(s[1..])
    else
      s
  }

  function TrimTrailingHyphens(s: string): (r: string)
    ensures |r| <= |s| && r == s[..|r|]
    ensures r == [] || r[|r| - 1] != '-'
    ensures (s == [] || s[|s| - 1] != '-') ==> r == s
    ensures s != [] && s[0] != '-' ==> r != [] && r[0] == s[0]
    ensures AllHyphens(s[|r|..])
  {
    if s != [] && s[|s| - 1] == '-' then TrimTrailingHyphens(s[..|s| - 1]) else s
  }

  /** The slug before the 60-character cut. */
  function UncutSlug(text: string): string
  {
    TrimHyphens(CollapseRuns(Lower(text)))
  }

  lemma UncutSlugShape(text: string)
    ensures var u := UncutSlug(text);
      SlugAlphabet(u) && NoDoubleHyphen(u) && (u == [] || (u[0] != '-' && u[|u| - 1] != '-'))
  {
    CollapseRunsShape(Lower(text));
    TrimHyphensKeepsShape(CollapseRuns(Lower(text)));
  }

  lemma TrimHyphensKeepsShape(c: string)
    requires SlugAlphabet(c) && NoDoubleHyphen(c)
    ensures SlugAlphabet(TrimHyphens(c)) && NoDoubleHyphen(TrimHyphens(c))
  {
    var i := LeadingHyphens(c);
    SliceKeepsShape(c, i, i + |TrimHyphens(c)|);
  }

  /** Any contiguous piece of a string in [a-z0-9-] without "--" is one too. */
  lemma SliceKeepsShape(s: string, i: nat, j: nat)
    requires i <= j <= |s|
    requires SlugAlphabet(s) && NoDoubleHyphen(s)
    ensures SlugAlphabet(s[i..j]) && NoDoubleHyphen(s[i..j])
  {
    var t := s[i..j];
    forall k | 0 <= k < |t| ensures IsSlugChar(t[k]) || t[k] == '-' {
      assert t[k] == s[i + k];
    }
    forall k, m | 0 <= k < m < |t| && m == k + 1 ensures !(t[k] == '-' && t[m] == '-') {
      assert t[k] == s[i + k] && t[m] == s[i + m];
    }
  }

  /** `slugify(text)` */
  function Slugify(text: string): (r: string)
    ensures |r| <= MaxSlugLength
    ensures SlugAlphabet(r)
    ensures r == [] || r[0] != '-'
    ensures NoDoubleHyphen(r)
    ensures IsPrefix(r, UncutSlug(text))
    ensures |UncutSlug(text)| <= MaxSlugLength ==> r == UncutSlug(text)
    ensures |UncutSlug(text)| > MaxSlugLength ==> r == UncutSlug(text)[..MaxSlugLength]
  {
    var u := UncutSlug(text);
    UncutSlugShape(text);
    if |u| <= MaxSlugLength then u
    else
      SliceKeepsShape(u, 0, MaxSlugLength);
      u[..MaxSlugLength]
  }

  /** A trailing hyphen survives only when the cut at 60 characters fell
      just after a hyphen, so the uncut slug was longer than 60. */
  lemma TrailingHyphenOnlyWhenCut(text: string)
    requires EndsWithHyphen(Slugify(text))
    ensures |UncutSlug(text)| > MaxSlugLength
  {
    UncutSlugShape(text);
  }

  lemma {:induction false} LowerOfSlugAlphabet(s: string)
    requires SlugAlphabet(s)
    ensures Lower(s) == s
  {
    assert forall i :: 0 <= i < |s| ==> Lower(s)[i] == s[i];
  }

  /** A string in [a-z0-9-] without "--" that does not start with '-' is
      left alone by the run-collapsing step. */
  lemma {:induction false} CollapseRunsOfSlugShaped(s: string)
    requires SlugAlphabet(s) && NoDoubleHyphen(s)
    ensures CollapseRuns(s) == s
    decreases |s|
  {
    if s != [] {
      var t := s[1..];
      SliceKeepsShape(s, 1, |s|);
      if !IsSlugChar(s[0]) && t != [] {
        assert t[0] == s[1] && !(s[0] == '-' && s[1] == '-');
      }
      CollapseFirst(s);
      CollapseRunsOfSlugShaped(t);
      assert s == [s[0]] + t;
    }
  }

  /** One step of the run-collapsing on a string whose first run outside
      [a-z0-9] is at most one character long. */
  lemma CollapseFirst(s: string)
    requires s != []
    requires IsSlugChar(s[0]) || s[0] == '-'
    requires IsSlugChar(s[0]) || s[1..] == [] || IsSlugChar(s[1])
    ensures CollapseRuns(s) == [s[0]] + CollapseRuns(s[1..])
  {
    if !IsSlugChar(s[0]) {
      assert SkipRun(s[1..]) == s[1..];
    }
  }

  /** Applying `slugify` to a string that already has a slug's shape, with no
      hyphen at either end and at most 60 characters, changes nothing. */
  lemma SlugifyFixesSlugs(s: string)
    requires SlugAlphabet(s) && NoDoubleHyphen(s)
    requires s == [] || (s[0] != '-' && s[|s| - 1] != '-')
    requires |s| <= MaxSlugLength
    ensures Slugify(s) == s
  {
    LowerOfSlugAlphabet(s);
    CollapseRunsOfSlugShaped(s);
  }

  /** `slugify` is idempotent exactly when its result does not end in '-'. */
  lemma SlugifyIdempotentIff(text: string)
    ensures Slugify(Slugify(text)) == Slugify(text) <==> !EndsWithHyphen(Slugify(text))
  {
    var s := Slugify(text);
    LowerOfSlugAlphabet(s);
    CollapseRunsOfSlugShaped(s);
    if !EndsWithHyphen(s) {
      SlugifyFixesSlugs(s);
    } else {
      assert UncutSlug(s) == TrimHyphens(s);
      assert |TrimHyphens(s)| < |s|;
    }
  }

  /** An uncut slug of at most 60 characters is a fixed point of `slugify`. */
  lemma SlugifyIdempotentWhenUncut(text: string)
    requires |UncutSlug(text)| <= MaxSlugLength
    ensures Slugify(Slugify(text)) == Slugify(text)
  {
    UncutSlugShape(text);
    SlugifyIdempotentIff(text);
  }

  /** A title whose slug is cut right after a hyphen: 59 slug characters,
      a space and one more slug character give a 61-character uncut slug,
      and the cut leaves the hyphen at the end, so `slugify` is not
      idempotent on it. */
  lemma CutAfterHyphen(w: string, c: char)
    requires |w| == MaxSlugLength - 1
    requires forall i :: 0 <= i < |w| ==> IsSlugChar(w[i])
    requires IsSlugChar(c)
    ensures var title := w + [' ', c];
      EndsWithHyphen(Slugify(title)) && Slugify(Slugify(title)) != Slugify(title)
  {
    var title := w + [' ', c];
    var collapsed := w + ['-', c];
    assert Lower(title) == title by {
      forall i | 0 <= i < |title| ensures Lower(title)[i] == title[i] {
        assert IsSlugChar(title[i]) || title[i] == ' ';
      }
    }
    CollapseRunsOfSlugShapedPrefix(w, ' ', c);
    assert collapsed[0] != '-' && collapsed[|collapsed| - 1] != '-' by {
      assert collapsed[0] == w[0] && collapsed[|collapsed| - 1] == c;
    }
    assert UncutSlug(title) == collapsed;
    assert Slugify(title) == collapsed[..MaxSlugLength];
    assert collapsed[MaxSlugLength - 1] == '-';
    SlugifyIdempotentIff(title);
  }

  /** The shortest such title made of letters: 59 times 'a', a space, 'b'. */
  lemma TrailingHyphenWitness()
    ensures var title := seq(59, _ => 'a') + " b";
      EndsWithHyphen(Slugify(title)) && Slugify(Slugify(title)) != Slugify(title)
  {
    var w := seq(59, _ => 'a');
    assert w + " b" == w + [' ', 'b'];
    CutAfterHyphen(w, 'b');
  }

  /** Collapsing `w + [sep, c]` for a word `w` of slug characters, a single
      separator outside [a-z0-9] and a slug character `c`. */
  lemma {:induction false} CollapseRunsOfSlugShapedPrefix(w: string, sep: char, c: char)
    requires forall i :: 0 <= i < |w| ==> IsSlugChar(w[i])
    requires !IsSlugChar(sep) && IsSlugChar(c)
    ensures CollapseRuns(w + [sep, c]) == w + ['-', c]
    decreases |w|
  {
    var x := w + [sep, c];
    if w == [] {
      assert x[1..] == [c];
      assert SkipRun([c]) == [c];
      assert CollapseRuns([c]) == [c] + CollapseRuns([]);
      assert CollapseRuns(x) == ['-'] + CollapseRuns([c]);
    } else {
      assert x[0] == w[0] && x[1..] == w[1..] + [sep, c];
      assert CollapseRuns(x) == [w[0]] + CollapseRuns(x[1..]);
      CollapseRunsOfSlugShapedPrefix(w[1..], sep, c);
      assert [w[0]] + (w[1..] + ['-', c]) == w + ['-', c];
    }
  }
}
