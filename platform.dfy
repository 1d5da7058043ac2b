/**
 * `getPlatformClass(platform)` (script.js): the badge class of a platform
 * name, found by testing the lower-cased name against keywords in a fixed
 * order; the first keyword contained wins.
 */
module Platform {
  import opened Text

  /** The classes a badge can carry. */
  predicate IsPlatformClass(c: string)
  {
    c == "gemini" || c == "grok" || c == "meta-ai" || c == "chatgpt" || c == "midjourney" || c == "other"
  }

  /** `getPlatformClass(platform)`, with its tests in the script's order. */
  function PlatformClass(platform: string): (r: string)
    ensures IsPlatformClass(r)
  {
    if platform == [] then "other"
    else
      var p := Lower(platform);
      if Contains(p, "gemini") then "gemini"
      else if Contains(p, "grok") then "grok"
      else if Contains(p, "meta") then "meta-ai"
      else if Contains(p, "chatgpt") || Contains(p, "dall") then "chatgpt"
      else if Contains(p, "midjourney") then "midjourney"
      else "other"
  }

  /** A rule: the keywords that select a class. */
  datatype Rule = Rule(keywords: seq<string>, badge: string)

  /** The keyword table, in priority order. */
  const Rules: seq<Rule> := [
    Rule(["gemini"], "gemini"),
    Rule(["grok"], "grok"),
    Rule(["meta"], "meta-ai"),
    Rule(["chatgpt", "dall"], "chatgpt"),
    Rule(["midjourney"], "midjourney")
  ]

  predicate Matches(p: string, rule: Rule)
  {
    exists k :: 0 <= k < |rule.keywords| && Contains(p, rule.keywords[k])
  }

  /** The reference definition: the class of the first rule with a keyword
      in `p`, or "other" when none has. */
  function FirstMatch(p: string, rules: seq<Rule>): string
  {
    if rules == [] then "other"
    else if Matches(p, rules[0]) then rules[0].badge
    else FirstMatch(p, rules[1..])
  }

  lemma MatchesOne(p: string, w: string)
    ensures Matches(p, Rule([w], "")) <==> Contains(p, w)
  {
    if Contains(p, w) {
      assert [w][0] == w;
    }
  }

  lemma MatchesTwo(p: string, w1: string, w2: string)
    ensures Matches(p, Rule([w1, w2], "")) <==> Contains(p, w1) || Contains(p, w2)
  {
    var ws := [w1, w2];
    if Contains(p, w1) {
      assert ws[0] == w1;
    }
    if Contains(p, w2) {
      assert ws[1] == w2;
    }
  }

  lemma FirstMatchStep(p: string, rules: seq<Rule>)
    requires rules != []
    ensures FirstMatch(p, rules) == if Matches(p, rules[0]) then rules[0].badge else FirstMatch(p, rules[1..])
  {
  }

  /** The chain of tests is a first match over the keyword table, applied to
      the lower-cased name; an empty name is "other". */
  lemma PlatformClassIsFirstMatch(platform: string)
    ensures PlatformClass(platform) == if platform == [] then "other" else FirstMatch(Lower(platform), Rules)
  {
    var p := Lower(platform);
    var rs := Rules;
    MatchesOne(p, "gemini");
    MatchesOne(p, "grok");
    MatchesOne(p, "meta");
    MatchesTwo(p, "chatgpt", "dall");
    MatchesOne(p, "midjourney");
    FirstMatchStep(p, rs);
    FirstMatchStep(p, rs[1..]);
    FirstMatchStep(p, rs[2..]);
    FirstMatchStep(p, rs[3..]);
    FirstMatchStep(p, rs[4..]);
    assert rs[1..][0] == rs[1] && rs[1..][1..] == rs[2..];
    assert rs[2..][0] == rs[2] && rs[2..][1..] == rs[3..];
    assert rs[3..][0] == rs[3] && rs[3..][1..] == rs[4..];
    assert rs[4..][0] == rs[4] && rs[4..][1..] == [];
  }

  /** A name is classed "other" exactly when it is empty or contains none of
      the keywords once lower-cased. */
  lemma OtherIff(platform: string)
    ensures PlatformClass(platform) == "other" <==>
      platform == [] ||
      (var p := Lower(platform);
       !Contains(p, "gemini") && !Contains(p, "grok") && !Contains(p, "meta")
       && !Contains(p, "chatgpt") && !Contains(p, "dall") && !Contains(p, "midjourney"))
  {
  }

  /** Every keyword is lower case, so lower-casing the name first changes
      nothing: the class ignores letter case. */
  lemma PlatformClassIgnoresCase(platform: string)
    ensures PlatformClass(Lower(platform)) == PlatformClass(platform)
  {
    LowerIdempotent(platform);
  }
}
