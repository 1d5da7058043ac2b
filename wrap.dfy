/**
 * `wrapText(text, maxLen)` (script.js): splits the text at white-space runs
 * and packs the words greedily into lines of at most `maxLen` characters,
 * separated by single spaces. A word longer than `maxLen` gets a line of its
 * own; it is never broken.
 */
module Wrap {
  import opened Text

  /** `s` without its leading white space. */
  function SkipSpaces(s: string): (r: string)
    ensures |r| <= |s| && r == s[|s| - |r|..]
    ensures r == [] || !IsSpace(r[0])
    ensures forall i :: 0 <= i < |s| - |r| ==> IsSpace(s[i])
  {
    if s != [] && IsSpace(s[0]) then
      var r := SkipSpaces(s[1..]);
      assert s[1..][|s| - 1 - |r|..] == s[|s| - |r|..];
      assert forall i :: 1 <= i < |s| - |r| ==> s[i] == s[1..][i - 1];
      r
    else s
  }

  /** `text.split(/\s+/)`: the pieces between maximal white-space runs. White
      space at the start or the end yields an empty first or last piece, and
      the empty text yields one empty piece. */
  function SplitWords(text: string): (ws: seq<string>)
    ensures ws != []
    decreases |text|
  {
    if text == [] then [[]]
    else if IsSpace(text[0]) then [[]] + SplitWords(SkipSpaces(text))
    else
      var rest := SplitWords(text[1..]);
      [[text[0]] + rest[0]] + rest[1..]
  }

  /** No piece holds white space. */
  lemma {:induction false} SplitWordsNoSpace(text: string)
    ensures forall i :: 0 <= i < |SplitWords(text)| ==> HasNoSpace(SplitWords(text)[i])
    decreases |text|
  {
    if text == [] {
    } else if IsSpace(text[0]) {
      var next := SkipSpaces(text);
      SplitWordsNoSpace(next);
      var ws := SplitWords(text);
      assert forall i :: 1 <= i < |ws| ==> ws[i] == SplitWords(next)[i - 1];
    } else {
      SplitWordsNoSpace(text[1..]);
      var rest := SplitWords(text[1..]);
      var ws := SplitWords(text);
      var first := [text[0]] + rest[0];
      assert HasNoSpace(first) by {
        assert HasNoSpace(rest[0]);
        forall k | 0 <= k < |first| ensures !IsSpace(first[k]) {
          if k > 0 { assert first[k] == rest[0][k - 1]; }
        }
      }
      assert forall i :: 1 <= i < |ws| ==> ws[i] == rest[i];
    }
  }

  /** A text that does not start with white space has a non-empty first piece. */
  lemma SplitFirstNonEmpty(text: string)
    requires text != [] && !IsSpace(text[0])
    ensures SplitWords(text)[0] != []
  {
  }

  /** A text that does not end with white space has a non-empty last piece. */
  lemma {:induction false} SplitLastNonEmpty(text: string)
    requires text != [] && !IsSpace(text[|text| - 1])
    ensures SplitWords(text)[|SplitWords(text)| - 1] != []
    decreases |text|
  {
    if IsSpace(text[0]) {
      var next := SkipSpaces(text);
      assert next != [];
      assert next[|next| - 1] == text[|text| - 1];
      SplitLastNonEmpty(next);
      assert SplitWords(text) == [[]] + SplitWords(next);
    } else if |text| == 1 {
      assert SplitWords(text) == [[text[0]] + []];
    } else {
      var t := text[1..];
      assert t[|t| - 1] == text[|text| - 1];
      SplitLastNonEmpty(t);
      var rest := SplitWords(t);
      assert SplitWords(text) == [[text[0]] + rest[0]] + rest[1..];
    }
  }

  /** Only the first and the last piece can be empty. */
  lemma {:induction false} SplitInteriorNonEmpty(text: string)
    ensures forall i :: 0 < i < |SplitWords(text)| - 1 ==> SplitWords(text)[i] != []
    decreases |text|
  {
    if text == [] {
    } else if IsSpace(text[0]) {
      var next := SkipSpaces(text);
      SplitInteriorNonEmpty(next);
      var tail := SplitWords(next);
      assert SplitWords(text) == [[]] + tail;
      if next != [] {
        SplitFirstNonEmpty(next);
      }
      assert forall i :: 1 <= i < |tail| + 1 ==> ([[]] + tail)[i] == tail[i - 1];
    } else {
      var t := text[1..];
      SplitInteriorNonEmpty(t);
      var rest := SplitWords(t);
      var ws := [[text[0]] + rest[0]] + rest[1..];
      assert SplitWords(text) == ws;
      assert forall i :: 1 <= i < |ws| ==> ws[i] == rest[i];
    }
  }

  /** Text made only of white space splits into empty pieces. */
  lemma {:induction false} SplitBlank(text: string)
    requires forall i :: 0 <= i < |text| ==> IsSpace(text[i])
    ensures forall i :: 0 <= i < |SplitWords(text)| ==> SplitWords(text)[i] == []
  {
    if text != [] {
      assert SkipSpaces(text) == [];
      assert SplitWords(text) == [[], []];
    }
  }

  /** The loop state of `wrapText`: the finished lines and the line being filled. */
  datatype WrapState = WrapState(lines: seq<string>, current: string)

  /** One iteration of the loop at script.js:584-592. */
  function Step(st: WrapState, word: string, maxLen: int): WrapState
  {
    if st.current != [] && |st.current| + 1 + |word| > maxLen then
      WrapState(st.lines + [st.current], word)
    else
      WrapState(st.lines, if st.current != [] then st.current + " " + word else word)
  }

  /** The loop state after the given words. */
  function Fold(words: seq<string>, maxLen: int): WrapState
    decreases |words|
  {
    if words == [] then WrapState([], [])
    else Step(Fold(words[..|words| - 1], maxLen), words[|words| - 1], maxLen)
  }

  /** The lines once the last, unfinished line is pushed if it is not empty. */
  function Finish(st: WrapState): seq<string>
  {
    if st.current != [] then st.lines + [st.current] else st.lines
  }

  function WrapWords(words: seq<string>, maxLen: int): seq<string>
  {
    Finish(Fold(words, maxLen))
  }

  /** `wrapText(text, maxLen)` */
  method WrapText(text: string, maxLen: int) returns (lines: seq<string>)
    ensures lines == WrapWords(SplitWords(text), maxLen)
  {
    var words := SplitWords(text);
    lines := [];
    var current := "";
    for i := 0 to |words|
      invariant WrapState(lines, current) == Fold(words[..i], maxLen)
    {
      assert words[..i + 1][..i] == words[..i];
      var word := words[i];
      if current != [] && |current| + 1 + |word| > maxLen {
        lines := lines + [current];
        current := word;
      } else {
        current := if current != [] then current + " " + word else word;
      }
    }
    assert words[..|words|] == words;
    if current != [] {
      lines := lines + [current];
    }
  }

  /** The only white space in `s` is the plain space. */
  predicate BlanksOnly(s: string)
  {
    forall i :: 0 <= i < |s| ==> !IsSpace(s[i]) || s[i] == ' '
  }

  /** A line is never empty, and it fits in `maxLen` characters unless it is
      a single word; if no word holds white space, a line holds none but the
      separating blanks. */
  ghost predicate GoodLine(l: string, words: seq<string>, maxLen: int)
  {
    && l != []
    && (|l| <= maxLen || l in words)
    && ((forall i :: 0 <= i < |words| ==> HasNoSpace(words[i])) ==> BlanksOnly(l))
  }

  ghost predicate GoodState(st: WrapState, words: seq<string>, maxLen: int)
  {
    && (forall i :: 0 <= i < |st.lines| ==> GoodLine(st.lines[i], words, maxLen))
    && (st.current != [] ==> GoodLine(st.current, words, maxLen))
  }

  lemma {:induction false} FoldGood(words: seq<string>, maxLen: int)
    ensures GoodState(Fold(words, maxLen), words, maxLen)
    decreases |words|
  {
    if words != [] {
      var front, w := words[..|words| - 1], words[|words| - 1];
      FoldGood(front, maxLen);
      var st := Fold(front, maxLen);
      assert forall l :: l in front ==> l in words;
      assert w in words;
      assert (forall i :: 0 <= i < |words| ==> HasNoSpace(words[i])) ==>
        forall i :: 0 <= i < |front| ==> HasNoSpace(front[i]) && front[i] == words[i];
      assert GoodState(st, words, maxLen);
    }
  }

  /** Every line `wrapText` produces is non-empty, and is at most `maxLen`
      long unless it is one word (longer than `maxLen`) on its own. */
  lemma WrapLinesFit(words: seq<string>, maxLen: int)
    ensures forall i :: 0 <= i < |WrapWords(words, maxLen)| ==>
      var l := WrapWords(words, maxLen)[i];
      l != [] && (|l| <= maxLen || l in words)
  {
    FoldGood(words, maxLen);
  }

  /** If no word holds white space, no line holds any but the blanks that
      separate words; in particular no line break. */
  lemma WrapLinesBlanksOnly(words: seq<string>, maxLen: int)
    requires forall i :: 0 <= i < |words| ==> HasNoSpace(words[i])
    ensures forall i :: 0 <= i < |WrapWords(words, maxLen)| ==> BlanksOnly(WrapWords(words, maxLen)[i])
  {
    FoldGood(words, maxLen);
  }

  /** The text up to the first blank. */
  function FirstWord(l: string): (w: string)
    ensures |w| <= |l| && w == l[..|w|]
    ensures ' ' !in w
  {
    if l == [] || l[0] == ' ' then [] else [l[0]] + FirstWord(l[1..])
  }

  lemma {:induction false} FirstWordExtend(c: string, w: string)
    ensures FirstWord(c + " " + w) == FirstWord(c)
    decreases |c|
  {
    if c == [] {
    } else if c[0] != ' ' {
      assert (c + " " + w)[1..] == c[1..] + " " + w;
      FirstWordExtend(c[1..], w);
    }
  }

  lemma {:induction false} FirstWordOfWord(w: string)
    requires ' ' !in w
    ensures FirstWord(w) == w
    decreases |w|
  {
    if w != [] {
      FirstWordOfWord(w[1..]);
    }
  }

  /** Line `a` could not take the first word of the line `b` after it. */
  predicate Full(a: string, b: string, maxLen: int)
  {
    |a| + 1 + |FirstWord(b)| > maxLen
  }

  ghost predicate Greedy(ls: seq<string>, maxLen: int)
  {
    forall i, j :: 0 <= i < j < |ls| && j == i + 1 ==> Full(ls[i], ls[j], maxLen)
  }

  predicate ProperWords(words: seq<string>)
  {
    forall i :: 0 <= i < |words| ==> words[i] != [] && ' ' !in words[i]
  }

  /** With proper words, the line being filled is empty only before the first word. */
  lemma {:induction false} FoldCurrent(words: seq<string>, maxLen: int)
    requires ProperWords(words)
    ensures (Fold(words, maxLen).current == []) == (words == [])
    decreases |words|
  {
    if words != [] {
      var front := words[..|words| - 1];
      assert ProperWords(front) by {
        assert forall i :: 0 <= i < |front| ==> front[i] == words[i];
      }
      FoldCurrent(front, maxLen);
    }
  }

  lemma {:induction false} FoldJoin(words: seq<string>, maxLen: int)
    requires ProperWords(words)
    ensures Join(Finish(Fold(words, maxLen)), " ") == Join(words, " ")
    decreases |words|
  {
    if words != [] {
      var front, w := words[..|words| - 1], words[|words| - 1];
      assert ProperWords(front) by {
        assert forall i :: 0 <= i < |front| ==> front[i] == words[i];
      }
      var st := Fold(front, maxLen);
      assert Fold(words, maxLen) == Step(st, w, maxLen);
      if front == [] {
        assert Finish(Fold(words, maxLen)) == [w];
      } else {
        assert Join(Finish(st), " ") == Join(front, " ") by {
          FoldJoin(front, maxLen);
        }
        assert st.current != [] by {
          FoldCurrent(front, maxLen);
        }
        StepJoin(st, w, maxLen);
        assert words == front + [w];
        JoinAppend(front, " ", w);
      }
    }
  }

  /** A step with a line under way adds the word to the joined text after a space. */
  lemma StepJoin(st: WrapState, w: string, maxLen: int)
    requires st.current != [] && w != []
    ensures Join(Finish(Step(st, w, maxLen)), " ") == Join(Finish(st), " ") + " " + w
  {
    if |st.current| + 1 + |w| > maxLen {
      assert Finish(Step(st, w, maxLen)) == Finish(st) + [w];
      JoinAppend(Finish(st), " ", w);
    } else {
      var line := st.current + " " + w;
      assert Step(st, w, maxLen) == WrapState(st.lines, line);
      assert line != [] by {
        assert |line| == |st.current| + 1 + |w|;
      }
      assert Finish(Step(st, w, maxLen)) == st.lines + [line];
      JoinExtendLast(st.lines, " ", st.current, " " + w);
      assert st.current + " " + w == st.current + (" " + w);
    }
  }

  lemma {:induction false} FoldGreedy(words: seq<string>, maxLen: int)
    requires ProperWords(words)
    ensures Greedy(Finish(Fold(words, maxLen)), maxLen)
    decreases |words|
  {
    if words != [] {
      var front, w := words[..|words| - 1], words[|words| - 1];
      assert ProperWords(front) by {
        assert forall i :: 0 <= i < |front| ==> front[i] == words[i];
      }
      FoldGreedy(front, maxLen);
      FoldCurrent(front, maxLen);
      var st := Fold(front, maxLen);
      var ls := Finish(st);
      FirstWordOfWord(w);
      if front != [] {
        if |st.current| + 1 + |w| > maxLen {
          var ls' := ls + [w];
          assert Finish(Fold(words, maxLen)) == ls';
          forall i, j | 0 <= i < j < |ls'| && j == i + 1 ensures Full(ls'[i], ls'[j], maxLen) {
            if j < |ls| {
              assert ls'[i] == ls[i] && ls'[j] == ls[j];
            }
          }
        } else {
          var c' := st.current + " " + w;
          var ls' := st.lines + [c'];
          assert Finish(Fold(words, maxLen)) == ls';
          FirstWordExtend(st.current, w);
          forall i, j | 0 <= i < j < |ls'| && j == i + 1 ensures Full(ls'[i], ls'[j], maxLen) {
            assert ls'[i] == ls[i];
            if j < |st.lines| {
              assert ls'[j] == ls[j];
            } else {
              assert ls[j] == st.current;
            }
          }
        }
      }
    }
  }

  /** Greedy packing: each line is full, in that the first word of the next
      line would not have fitted after it. */
  lemma WrapGreedy(words: seq<string>, maxLen: int)
    requires ProperWords(words)
    ensures var ls := WrapWords(words, maxLen);
      forall i, j :: 0 <= i < j < |ls| && j == i + 1 ==> |ls[i]| + 1 + |FirstWord(ls[j])| > maxLen
  {
    FoldGreedy(words, maxLen);
  }

  /** Nothing is lost or reordered: the lines joined by single spaces are the
      words joined by single spaces. */
  lemma WrapKeepsWords(words: seq<string>, maxLen: int)
    requires ProperWords(words)
    ensures Join(WrapWords(words, maxLen), " ") == Join(words, " ")
  {
    FoldJoin(words, maxLen);
  }

  /** Text made only of white space (the empty text included) yields no lines. */
  lemma {:induction false} WrapBlankText(text: string, maxLen: int)
    requires forall i :: 0 <= i < |text| ==> IsSpace(text[i])
    ensures WrapWords(SplitWords(text), maxLen) == []
  {
    SplitBlank(text);
    FoldOfEmptyWords(SplitWords(text), maxLen);
  }

  lemma {:induction false} FoldOfEmptyWords(words: seq<string>, maxLen: int)
    requires forall i :: 0 <= i < |words| ==> words[i] == []
    ensures Fold(words, maxLen) == WrapState([], [])
    decreases |words|
  {
    if words != [] {
      FoldOfEmptyWords(words[..|words| - 1], maxLen);
    }
  }

  /** The words of a trimmed, non-empty text are non-empty and hold no white space. */
  lemma SplitTrimmed(text: string)
    requires text != [] && !IsSpace(text[0]) && !IsSpace(text[|text| - 1])
    ensures ProperWords(SplitWords(text))
  {
    SplitTrimmedNonEmpty(text);
    SplitWordsNoSpace(text);
    NoSpaceNoBlank(SplitWords(text));
  }

  lemma SplitTrimmedNonEmpty(text: string)
    requires text != [] && !IsSpace(text[0]) && !IsSpace(text[|text| - 1])
    ensures forall i :: 0 <= i < |SplitWords(text)| ==> SplitWords(text)[i] != []
  {
    SplitFirstNonEmpty(text);
    SplitLastNonEmpty(text);
    SplitInteriorNonEmpty(text);
  }

  lemma NoSpaceNoBlank(ws: seq<string>)
    requires forall i :: 0 <= i < |ws| ==> HasNoSpace(ws[i])
    ensures forall i :: 0 <= i < |ws| ==> ' ' !in ws[i]
  {
    assert IsSpace(' ');
  }
}
