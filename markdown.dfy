/**
 * `generateEntryMarkdown(entry)` (script.js): the per-entry Markdown file.
 * A heading with the title, the image, a bulleted metadata block whose tags
 * line appears only when there are tags, a blank line, and the prompt
 * wrapped at 72 columns and block-quoted line by line.
 */
module Markdown {
  import opened Text
  import opened Wrap
  import opened Entries

  const PromptWidth: int := 72
  const TagsBullet: string := "- **Tags:** "
  const QuoteMark: string := "> "

  /** `wrapText(entry.prompt, 72)` */
  function PromptLines(e: Entry): seq<string>
  {
    WrapWords(SplitWords(e.prompt), PromptWidth)
  }

  /** Each line prefixed with the block-quote mark. */
  function Quote(ls: seq<string>): (r: seq<string>)
    ensures |r| == |ls|
    ensures forall i :: 0 <= i < |ls| ==> r[i] == QuoteMark + ls[i]
  {
    seq(|ls|, i requires 0 <= i < |ls| => QuoteMark + ls[i])
  }

  /** `generateEntryMarkdown(entry)`, built as the script builds it. */
  function EntryMarkdown(e: Entry): string
  {
    Render(e, PromptLines(e))
  }

  /** The text the script builds around the already wrapped prompt lines `ps`. */
  function Render(e: Entry, ps: seq<string>): string
  {
    var promptBlock := Join(Quote(ps), "\n");
    Head(e) + "\n" + promptBlock + "\n"
  }

  /** The text the script builds before the prompt: heading, image,
      platform, date, and the tags line when there are tags. */
  function Head(e: Entry): string
  {
    var md := "### " + e.title + "\n\n";
    var md := md + "![" + e.title + "](" + e.imageUrl + ")\n\n";
    var md := md + "- **Platform:** " + e.platform + "\n";
    var md := md + "- **Date:** " + e.date + "\n";
    if e.tags != [] then md + TagsBullet + e.tags + "\n" else md
  }

  /** The lines above the prompt: heading, blank, image, blank, platform,
      date, tags when there are any, blank. */
  function HeadLines(e: Entry): seq<string>
  {
    ["### " + e.title, "", "![" + e.title + "](" + e.imageUrl + ")", "",
     "- **Platform:** " + e.platform, "- **Date:** " + e.date]
    + (if e.tags != [] then [TagsBullet + e.tags] else [])
    + [""]
  }

  /** The prompt block: one quoted line per wrapped line, or one empty line. */
  function PromptBlock(ps: seq<string>): seq<string>
  {
    if ps == [] then [""] else Quote(ps)
  }

  /** The document line by line: the layout the Markdown file is meant to have. */
  function MarkdownLines(e: Entry): seq<string>
  {
    HeadLines(e) + PromptBlock(PromptLines(e))
  }

  /** Lines each terminated by a line break. */
  function Unlines(ls: seq<string>): string
  {
    if ls == [] then [] else ls[0] + "\n" + Unlines(ls[1..])
  }

  lemma {:induction false} UnlinesAppend(a: seq<string>, b: seq<string>)
    ensures Unlines(a + b) == Unlines(a) + Unlines(b)
    decreases |a|
  {
    if a != [] {
      assert (a + b)[0] == a[0] && (a + b)[1..] == a[1..] + b;
      UnlinesAppend(a[1..], b);
      calc {
        Unlines(a + b);
        a[0] + "\n" + Unlines(a[1..] + b);
        a[0] + "\n" + (Unlines(a[1..]) + Unlines(b));
        (a[0] + "\n" + Unlines(a[1..])) + Unlines(b);
      }
    } else {
      assert a + b == b;
    }
  }

  /** Joining with line breaks and ending with one is terminating every line. */
  lemma {:induction false} JoinLinesTerminated(ls: seq<string>)
    requires ls != []
    ensures Join(ls, "\n") + "\n" == Unlines(ls)
    decreases |ls|
  {
    if |ls| > 1 {
      var front := ls[..|ls| - 1];
      JoinLinesTerminated(front);
      UnlinesAppend(front, [ls[|ls| - 1]]);
      assert ls == front + [ls[|ls| - 1]];
    }
  }

  lemma UnlinesSnoc(ls: seq<string>, x: string)
    ensures Unlines(ls + [x]) == Unlines(ls) + x + "\n"
  {
    UnlinesAppend(ls, [x]);
    assert Unlines([x]) == x + "\n" + Unlines([]);
  }

  /** Two more lines after `ls`, the second one empty. */
  lemma UnlinesLineAndBlank(ls: seq<string>, x: string)
    ensures Unlines(ls + [x, ""]) == Unlines(ls) + x + "\n\n"
  {
    UnlinesSnoc(ls, x);
    UnlinesSnoc(ls + [x], "");
    assert ls + [x] + [""] == ls + [x, ""];
  }

  /** The fixed lines above the tags line, terminated, are the text the
      script builds before it. */
  lemma HeaderUnlines(t: string, img: string, p: string, d: string)
    ensures Unlines(["### " + t, "", "![" + t + "](" + img + ")", "", "- **Platform:** " + p, "- **Date:** " + d])
      == "### " + t + "\n\n" + "![" + t + "](" + img + ")\n\n" + "- **Platform:** " + p + "\n" + "- **Date:** " + d + "\n"
  {
    var h0, h2, h4, h5 := "### " + t, "![" + t + "](" + img + ")", "- **Platform:** " + p, "- **Date:** " + d;
    var t4 := "### " + t + "\n\n" + "![" + t + "](" + img + ")\n\n";
    assert Unlines([h0, "", h2, ""]) == t4 by {
      HeaderTwoBlocks(h0, h2, t, img);
    }
    UnlinesSnoc([h0, "", h2, ""], h4);
    UnlinesSnoc([h0, "", h2, "", h4], h5);
    assert [h0, "", h2, ""] + [h4] == [h0, "", h2, "", h4];
    assert [h0, "", h2, "", h4] + [h5] == [h0, "", h2, "", h4, h5];
  }

  /** The heading and the image, each followed by a blank line. */
  lemma HeaderTwoBlocks(h0: string, h2: string, t: string, img: string)
    requires h0 == "### " + t && h2 == "![" + t + "](" + img + ")"
    ensures Unlines([h0, "", h2, ""]) == "### " + t + "\n\n" + "![" + t + "](" + img + ")\n\n"
  {
    UnlinesLineAndBlank([], h0);
    UnlinesLineAndBlank([h0, ""], h2);
    assert [] + [h0, ""] == [h0, ""];
    assert [h0, ""] + [h2, ""] == [h0, "", h2, ""];
  }

  /** The head lines, each terminated, are the text before the prompt and
      the blank line after it. */
  lemma HeadUnlines(e: Entry)
    ensures Unlines(HeadLines(e)) == Head(e) + "\n"
  {
    var head := ["### " + e.title, "", "![" + e.title + "](" + e.imageUrl + ")", "",
                 "- **Platform:** " + e.platform, "- **Date:** " + e.date];
    var tagLine := if e.tags != [] then [TagsBullet + e.tags] else [];
    HeaderUnlines(e.title, e.imageUrl, e.platform, e.date);
    UnlinesAppend(head, tagLine);
    if e.tags != [] {
      UnlinesSnoc([], TagsBullet + e.tags);
    } else {
      assert head + tagLine == head;
    }
    UnlinesSnoc(head + tagLine, "");
  }

  /** The prompt block, each line terminated, is the joined block and the
      final line break. */
  lemma PromptBlockUnlines(ps: seq<string>)
    ensures Unlines(PromptBlock(ps)) == Join(Quote(ps), "\n") + "\n"
  {
    if ps != [] {
      JoinLinesTerminated(Quote(ps));
    } else {
      UnlinesSnoc([], "");
    }
  }

  /** The rendered text is exactly the head lines and the prompt block,
      each line followed by a line break. */
  lemma RenderIsLines(e: Entry, ps: seq<string>)
    ensures Render(e, ps) == Unlines(HeadLines(e) + PromptBlock(ps))
  {
    UnlinesAppend(HeadLines(e), PromptBlock(ps));
    HeadUnlines(e);
    PromptBlockUnlines(ps);
  }

  /** The Markdown text is exactly its lines, each followed by a line break. */
  lemma MarkdownIsItsLines(e: Entry)
    ensures EntryMarkdown(e) == Unlines(MarkdownLines(e))
  {
    RenderIsLines(e, PromptLines(e));
  }

  /** `p` is not a prefix of `s` when they differ at a position both have. */
  lemma NotPrefixAt(p: string, s: string, k: nat)
    requires k < |p| && k < |s| && s[k] != p[k]
    ensures !IsPrefix(p, s)
  {
    if |p| <= |s| {
      assert s[..|p|][k] == s[k];
    }
  }

  /** The length of the first line of `s`, up to its line break if any. */
  function LineLength(s: string): (n: nat)
    ensures n <= |s|
    ensures '\n' !in s[..n]
    ensures n < |s| ==> s[n] == '\n'
  {
    if s == [] || s[0] == '\n' then 0 else 1 + LineLength(s[1..])
  }

  /** Reads a text as lines, a line break ending each line (a last line
      without one is kept). */
  function LinesOf(s: string): seq<string>
    decreases |s|
  {
    if s == [] then []
    else
      var n := LineLength(s);
      [s[..n]] + (if n < |s| then LinesOf(s[n + 1..]) else [])
  }

  lemma {:induction false} LineLengthOfLine(l: string, rest: string)
    requires '\n' !in l
    ensures LineLength(l + "\n" + rest) == |l|
    decreases |l|
  {
    if l != [] {
      assert (l + "\n" + rest)[1..] == l[1..] + "\n" + rest;
      LineLengthOfLine(l[1..], rest);
    }
  }

  /** Reading back lines that hold no line break gives the same lines. */
  lemma {:induction false} LinesOfUnlines(ls: seq<string>)
    requires forall i :: 0 <= i < |ls| ==> '\n' !in ls[i]
    ensures LinesOf(Unlines(ls)) == ls
    decreases |ls|
  {
    if ls != [] {
      var s := Unlines(ls);
      LineLengthOfLine(ls[0], Unlines(ls[1..]));
      assert s[..|ls[0]|] == ls[0];
      assert s[|ls[0]| + 1..] == Unlines(ls[1..]);
      LinesOfUnlines(ls[1..]);
    }
  }

  /** The lines that start with the block-quote mark, in order. */
  function QuotedLines(ls: seq<string>): seq<string>
  {
    if ls == [] then []
    else (if IsPrefix(QuoteMark, ls[0]) then [ls[0]] else []) + QuotedLines(ls[1..])
  }

  lemma {:induction false} QuotedLinesAppend(a: seq<string>, b: seq<string>)
    ensures QuotedLines(a + b) == QuotedLines(a) + QuotedLines(b)
    decreases |a|
  {
    if a != [] {
      assert (a + b)[0] == a[0] && (a + b)[1..] == a[1..] + b;
      QuotedLinesAppend(a[1..], b);
      var h := if IsPrefix(QuoteMark, a[0]) then [a[0]] else [];
      calc {
        QuotedLines(a + b);
        h + QuotedLines(a[1..] + b);
        h + (QuotedLines(a[1..]) + QuotedLines(b));
        (h + QuotedLines(a[1..])) + QuotedLines(b);
      }
    } else {
      assert a + b == b;
    }
  }

  lemma {:induction false} QuotedLinesOfQuote(ls: seq<string>)
    ensures QuotedLines(Quote(ls)) == Quote(ls)
    decreases |ls|
  {
    if ls != [] {
      assert Quote(ls)[1..] == Quote(ls[1..]);
      QuotedLinesOfQuote(ls[1..]);
    }
  }

  predicate HasTagsBullet(l: string)
  {
    IsPrefix(TagsBullet, l)
  }

  /** No head line is block-quoted, and the only head line that starts with
      the tags bullet is the tags line, present exactly when there are tags. */
  lemma HeadLinesShape(e: Entry)
    ensures QuotedLines(HeadLines(e)) == []
    ensures (exists i :: 0 <= i < |HeadLines(e)| && HasTagsBullet(HeadLines(e)[i])) <==> e.tags != []
  {
    var hs := HeadLines(e);
    forall i | 0 <= i < |hs|
      ensures !IsPrefix(QuoteMark, hs[i])
      ensures HasTagsBullet(hs[i]) ==> e.tags != [] && i == 6
    {
      if hs[i] != [] {
        assert hs[i][0] == '#' || hs[i][0] == '!' || hs[i][0] == '-';
        NotPrefixAt(QuoteMark, hs[i], 0);
      }
      if i == 0 || i == 2 {
        NotPrefixAt(TagsBullet, hs[i], 0);
      } else if i == 4 || i == 5 {
        NotPrefixAt(TagsBullet, hs[i], 4);
      }
    }
    if e.tags != [] {
      assert HasTagsBullet(hs[6]);
    }
    NoneQuoted(hs);
  }

  lemma {:induction false} NoneQuoted(ls: seq<string>)
    requires forall i :: 0 <= i < |ls| ==> !IsPrefix(QuoteMark, ls[i])
    ensures QuotedLines(ls) == []
    decreases |ls|
  {
    if ls != [] {
      NoneQuoted(ls[1..]);
    }
  }

  /** The document opens with the title heading followed by a blank line. */
  lemma MarkdownStartsWithTitle(e: Entry)
    ensures IsPrefix("### " + e.title + "\n\n", EntryMarkdown(e))
  {
    var p := "### " + e.title + "\n\n";
    var ls := MarkdownLines(e);
    assert EntryMarkdown(e) == Unlines(ls) by {
      MarkdownIsItsLines(e);
    }
    assert Unlines(ls) == p + Unlines(ls[2..]) by {
      var first := [ls[0], ls[1]];
      assert ls == first + ls[2..];
      UnlinesAppend(first, ls[2..]);
      assert Unlines(first) == p by {
        assert ls[0] == "### " + e.title && ls[1] == "";
        UnlinesLineAndBlank([], ls[0]);
        assert [] + [ls[0], ""] == first;
      }
    }
    PrefixOfAppend(p, Unlines(ls[2..]));
  }

  lemma PrefixOfAppend(p: string, rest: string)
    ensures IsPrefix(p, p + rest)
  {
    assert (p + rest)[..|p|] == p;
  }

  /** Terminated lines end with a line break. */
  lemma UnlinesEndsWithBreak(ls: seq<string>)
    requires ls != []
    ensures Unlines(ls) != [] && Unlines(ls)[|Unlines(ls)| - 1] == '\n'
  {
    var front := ls[..|ls| - 1];
    assert ls == front + [ls[|ls| - 1]];
    UnlinesSnoc(front, ls[|ls| - 1]);
  }

  /** The document ends with a line break. */
  lemma MarkdownEndsWithBreak(e: Entry)
    ensures EntryMarkdown(e) != [] && EntryMarkdown(e)[|EntryMarkdown(e)| - 1] == '\n'
  {
    var ls := MarkdownLines(e);
    assert EntryMarkdown(e) == Unlines(ls) by {
      MarkdownIsItsLines(e);
    }
    assert ls != [] by {
      assert |HeadLines(e)| >= 7;
    }
    UnlinesEndsWithBreak(ls);
  }

  /** The document has a line starting with the tags bullet exactly when the
      entry has tags. */
  lemma MarkdownTagsLineIff(e: Entry)
    ensures (exists i :: 0 <= i < |MarkdownLines(e)| && HasTagsBullet(MarkdownLines(e)[i])) <==> e.tags != []
  {
    var ps := PromptLines(e);
    var hs := HeadLines(e);
    var ls := MarkdownLines(e);
    HeadLinesShape(e);
    forall i | 0 <= i < |ls| && HasTagsBullet(ls[i]) ensures e.tags != [] {
      if i >= |hs| {
        if ps != [] {
          assert ls[i] == QuoteMark + ps[i - |hs|];
          NotPrefixAt(TagsBullet, ls[i], 0);
        }
      } else {
        assert ls[i] == hs[i];
      }
    }
    if e.tags != [] {
      var i :| 0 <= i < |hs| && HasTagsBullet(hs[i]);
      assert ls[i] == hs[i];
    }
  }

  /** The block-quoted lines of the document are the wrapped prompt lines,
      in order, one each. */
  lemma MarkdownQuotesPrompt(e: Entry)
    ensures QuotedLines(MarkdownLines(e)) == Quote(PromptLines(e))
  {
    var ps := PromptLines(e);
    var block := PromptBlock(ps);
    HeadLinesShape(e);
    QuotedLinesAppend(HeadLines(e), block);
    if ps != [] {
      QuotedLinesOfQuote(ps);
    } else {
      NoneQuoted(block);
    }
  }

  /** When the title, image URL, platform, date and tags hold no line break
      (single-line form fields), the text read back line by line is the
      layout above. */
  lemma MarkdownReadsBack(e: Entry)
    requires '\n' !in e.title && '\n' !in e.imageUrl && '\n' !in e.platform
    requires '\n' !in e.date && '\n' !in e.tags
    ensures LinesOf(EntryMarkdown(e)) == MarkdownLines(e)
  {
    var ls := MarkdownLines(e);
    assert EntryMarkdown(e) == Unlines(ls) by {
      MarkdownIsItsLines(e);
    }
    HeadLinesNoBreak(e);
    PromptBlockNoBreak(e);
    assert forall i :: 0 <= i < |ls| ==> '\n' !in ls[i] by {
      var hs, block := HeadLines(e), PromptBlock(PromptLines(e));
      forall i | 0 <= i < |ls| ensures '\n' !in ls[i] {
        if i < |hs| {
          assert ls[i] == hs[i];
        } else {
          assert ls[i] == block[i - |hs|];
        }
      }
    }
    LinesOfUnlines(ls);
  }

  /** No head line holds a line break when the fields do not. */
  lemma HeadLinesNoBreak(e: Entry)
    requires '\n' !in e.title && '\n' !in e.imageUrl && '\n' !in e.platform
    requires '\n' !in e.date && '\n' !in e.tags
    ensures forall i :: 0 <= i < |HeadLines(e)| ==> '\n' !in HeadLines(e)[i]
  {
  }

  /** The wrapped prompt lines hold no line break: `wrapText` splits on all
      whitespace and joins with single spaces. */
  lemma PromptBlockNoBreak(e: Entry)
    ensures forall i :: 0 <= i < |PromptBlock(PromptLines(e))| ==> '\n' !in PromptBlock(PromptLines(e))[i]
  {
    var ps := PromptLines(e);
    SplitWordsNoSpace(e.prompt);
    WrapLinesBlanksOnly(SplitWords(e.prompt), PromptWidth);
    assert IsSpace('\n');
    forall i | 0 <= i < |ps| ensures '\n' !in QuoteMark + ps[i] {
      assert BlanksOnly(ps[i]);
    }
  }
}
