/**
 * `escapeAttr(str)` (script.js): makes a string safe inside a quoted HTML
 * attribute by five global replacements applied one after the other,
 * ampersands first so that the entities the later steps insert are not
 * escaped again.
 */
module Escape {

  /** `s.replace(/c/g, rep)` for a single character `c`. */
  function ReplaceAll(s: string, c: char, rep: string): (r: string)
    ensures c !in s ==> r == s
  {
    if s == [] then []
    else (if s[0] == c then rep else [s[0]]) + ReplaceAll(s[1..], c, rep)
  }

  /** `escapeAttr(str)`, step by step as the script applies them. */
  function EscapeAttr(s: string): string
  {
    var s1 := ReplaceAll(s, '&', "&amp;");
    var s2 := ReplaceAll(s1, '"', "&quot;");
    var s3 := ReplaceAll(s2, '\'', "&#39;");
    var s4 := ReplaceAll(s3, '<', "&lt;");
    ReplaceAll(s4, '>', "&gt;")
  }

  /** The entity each of the five special characters becomes; any other
      character stands for itself. */
  function EscapeChar(c: char): (r: string)
    ensures r != [] && (r[0] == '&' <==> c == '&' || c == '"' || c == '\'' || c == '<' || c == '>')
  {
    if c == '&' then "&amp;"
    else if c == '"' then "&quot;"
    else if c == '\'' then "&#39;"
    else if c == '<' then "&lt;"
    else if c == '>' then "&gt;"
    else [c]
  }

  /** The reference definition: every character escaped on its own. */
  function EscapeEach(s: string): string
  {
    if s == [] then [] else EscapeChar(s[0]) + EscapeEach(s[1..])
  }

  lemma {:induction false} ReplaceAllAppend(a: string, b: string, c: char, rep: string)
    ensures ReplaceAll(a + b, c, rep) == ReplaceAll(a, c, rep) + ReplaceAll(b, c, rep)
    decreases |a|
  {
    if a == [] {
      assert a + b == b;
    } else {
      assert (a + b)[0] == a[0] && (a + b)[1..] == a[1..] + b;
      ReplaceAllAppend(a[1..], b, c, rep);
    }
  }

  lemma {:induction false} EscapeAttrAppend(a: string, b: string)
    ensures EscapeAttr(a + b) == EscapeAttr(a) + EscapeAttr(b)
  {
    var a1, b1 := ReplaceAll(a, '&', "&amp;"), ReplaceAll(b, '&', "&amp;");
    ReplaceAllAppend(a, b, '&', "&amp;");
    var a2, b2 := ReplaceAll(a1, '"', "&quot;"), ReplaceAll(b1, '"', "&quot;");
    ReplaceAllAppend(a1, b1, '"', "&quot;");
    var a3, b3 := ReplaceAll(a2, '\'', "&#39;"), ReplaceAll(b2, '\'', "&#39;");
    ReplaceAllAppend(a2, b2, '\'', "&#39;");
    var a4, b4 := ReplaceAll(a3, '<', "&lt;"), ReplaceAll(b3, '<', "&lt;");
    ReplaceAllAppend(a3, b3, '<', "&lt;");
    ReplaceAllAppend(a4, b4, '>', "&gt;");
  }

  lemma ReplaceAllOne(c: char, d: char, rep: string)
    ensures ReplaceAll([c], d, rep) == if c == d then rep else [c]
  {
    assert [c][1..] == [];
  }

  /** The last `n` steps leave alone a text holding none of the characters
      they replace. */
  lemma Tail3Keeps(t: string)
    requires '\'' !in t && '<' !in t && '>' !in t
    ensures ReplaceAll(ReplaceAll(ReplaceAll(t, '\'', "&#39;"), '<', "&lt;"), '>', "&gt;") == t
  {
  }

  lemma Tail4Keeps(t: string)
    requires '"' !in t && '\'' !in t && '<' !in t && '>' !in t
    ensures ReplaceAll(ReplaceAll(ReplaceAll(ReplaceAll(t, '"', "&quot;"), '\'', "&#39;"), '<', "&lt;"), '>', "&gt;") == t
  {
    Tail3Keeps(t);
  }

  lemma Tail2Keeps(t: string)
    requires '<' !in t && '>' !in t
    ensures ReplaceAll(ReplaceAll(t, '<', "&lt;"), '>', "&gt;") == t
  {
  }

  /** One character goes through the five steps to its entity. */
  lemma EscapeAttrOne(c: char)
    ensures EscapeAttr([c]) == EscapeChar(c)
  {
    ReplaceAllOne(c, '&', "&amp;");
    if c == '&' {
      Tail4Keeps("&amp;");
    } else {
      ReplaceAllOne(c, '"', "&quot;");
      if c == '"' {
        Tail3Keeps("&quot;");
      } else {
        ReplaceAllOne(c, '\'', "&#39;");
        if c == '\'' {
          Tail2Keeps("&#39;");
        } else {
          ReplaceAllOne(c, '<', "&lt;");
          ReplaceAllOne(c, '>', "&gt;");
          if c == '<' {
            assert '>' !in "&lt;";
          }
        }
      }
    }
  }

  /** The chain of replacements escapes each character independently: no
      entity produced by an earlier step is rewritten by a later one. */
  lemma {:induction false} EscapeAttrIsPerChar(s: string)
    ensures EscapeAttr(s) == EscapeEach(s)
    decreases |s|
  {
    if s == [] {
    } else {
      assert s == [s[0]] + s[1..];
      EscapeAttrAppend([s[0]], s[1..]);
      EscapeAttrOne(s[0]);
      EscapeAttrIsPerChar(s[1..]);
    }
  }

  predicate Unsafe(c: char)
  {
    c == '"' || c == '\'' || c == '<' || c == '>'
  }

  lemma {:induction false} EscapeEachSafe(s: string)
    ensures forall i :: 0 <= i < |EscapeEach(s)| ==> !Unsafe(EscapeEach(s)[i])
    decreases |s|
  {
    if s != [] {
      EscapeEachSafe(s[1..]);
      var h := EscapeChar(s[0]);
      var t := EscapeEach(s[1..]);
      forall i | 0 <= i < |h + t| ensures !Unsafe((h + t)[i]) {
        if i >= |h| {
          assert (h + t)[i] == t[i - |h|];
        }
      }
    }
  }

  /** The escaped text holds no quote of either kind and no angle bracket,
      so it cannot close the attribute or open a tag. */
  lemma EscapeAttrSafe(s: string)
    ensures forall i :: 0 <= i < |EscapeAttr(s)| ==> !Unsafe(EscapeAttr(s)[i])
  {
    EscapeAttrIsPerChar(s);
    EscapeEachSafe(s);
  }

  /** Reads the five entities back to their characters. */
  function Unescape(t: string): string
    decreases |t|
  {
    if t == [] then []
    else if |t| >= 5 && t[..5] == "&amp;" then "&" + Unescape(t[5..])
    else if |t| >= 6 && t[..6] == "&quot;" then "\"" + Unescape(t[6..])
    else if |t| >= 5 && t[..5] == "&#39;" then "'" + Unescape(t[5..])
    else if |t| >= 4 && t[..4] == "&lt;" then "<" + Unescape(t[4..])
    else if |t| >= 4 && t[..4] == "&gt;" then ">" + Unescape(t[4..])
    else [t[0]] + Unescape(t[1..])
  }

  lemma UnescapeStep(c: char, rest: string)
    ensures Unescape(EscapeChar(c) + rest) == [c] + Unescape(rest)
  {
    var t := EscapeChar(c) + rest;
    var h := EscapeChar(c);
    assert t[..|h|] == h && t[|h|..] == rest;
    if c == '&' {
    } else if c == '"' {
      assert t[..5] != "&amp;" by { assert t[1] == 'q'; }
    } else if c == '\'' {
      assert t[..5] != "&amp;" by { assert t[1] == '#'; }
      assert |t| < 6 || t[..6] != "&quot;" by { assert t[1] == '#'; }
    } else if c == '<' {
      assert t[..4] == "&lt;";
      assert |t| < 5 || t[..5] != "&amp;" by { assert t[1] == 'l'; }
      assert |t| < 6 || t[..6] != "&quot;" by { assert t[1] == 'l'; }
      assert |t| < 5 || t[..5] != "&#39;" by { assert t[1] == 'l'; }
    } else if c == '>' {
      assert |t| < 5 || t[..5] != "&amp;" by { assert t[1] == 'g'; }
      assert |t| < 6 || t[..6] != "&quot;" by { assert t[1] == 'g'; }
      assert |t| < 5 || t[..5] != "&#39;" by { assert t[1] == 'g'; }
      assert t[..4] != "&lt;" by { assert t[1] == 'g'; }
    } else {
      assert t[0] == c && t[1..] == rest;
      assert |t| < 4 || (t[..4] != "&lt;" && t[..4] != "&gt;") by {
        if |t| >= 4 { assert t[..4][0] == c; }
      }
      assert |t| < 5 || (t[..5] != "&amp;" && t[..5] != "&#39;") by {
        if |t| >= 5 { assert t[..5][0] == c; }
      }
      assert |t| < 6 || t[..6] != "&quot;" by {
        if |t| >= 6 { assert t[..6][0] == c; }
      }
    }
  }

  /** Unescaping undoes the escaping: nothing is lost. */
  lemma {:induction false} UnescapeEscapeAttr(s: string)
    ensures Unescape(EscapeAttr(s)) == s
    decreases |s|
  {
    EscapeAttrIsPerChar(s);
    if s != [] {
      UnescapeStep(s[0], EscapeEach(s[1..]));
      UnescapeEscapeAttr(s[1..]);
      EscapeAttrIsPerChar(s[1..]);
      assert s == [s[0]] + s[1..];
    }
  }
}
