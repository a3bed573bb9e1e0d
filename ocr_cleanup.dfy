/** The text clean-up of the OCR and translation panes in new.py.

    - `post_process_text`: an empty text comes back as it is; otherwise each
      paragraph (cut at `"\n\n"`) has its lines stripped, the empty ones
      dropped and the rest merged into one line, empty paragraphs are
      dropped, and a table of common OCR confusions is replaced in order.
      The regular-expression stages that follow the table and the final
      `strip()` are not part of this model.
    - `post_process_translation`: the translated pieces joined by spaces,
      every run of whitespace turned into one space, and the result
      stripped. */
module OcrCleanup {
  import opened PyText

  // ---------------------------------------------------------------------
  // post_process_text: merging lines and paragraphs

  /** The characters that end a sentence-like line in the merge test
      `current_line[-1] in '.!?":)]}'`. */
  const ClosingMarks: set<char> := {'.', '!', '?', '"', ':', ')', ']', '}'}

  /** The stripped lines that are not empty, in order. */
  function StrippedLines(lines: seq<string>): seq<string> {
    if lines == [] then []
    else
      var line := Strip(lines[|lines| - 1]);
      StrippedLines(lines[..|lines| - 1]) + (if line == [] then [] else [line])
  }

  lemma StrippedLinesSnoc(lines: seq<string>, x: string)
    ensures StrippedLines(lines + [x]) == StrippedLines(lines) + (if Strip(x) == [] then [] else [Strip(x)])
  {
    assert (lines + [x])[..|lines|] == lines;
  }

  /** `cleaned_para`: one paragraph after the merge. */
  function ParagraphText(para: string): string {
    Join(" ", StrippedLines(Split(para, "\n")))
  }

  /** The inner loop of `post_process_text` on one paragraph. A line is
      glued to the previous one when that one does not end in a closing
      mark, and starts a new merged line otherwise; either way the merged
      lines are joined by single spaces, so the result is the paragraph's
      stripped, non-empty lines joined by single spaces. */
  method MergeParagraph(para: string) returns (cleanedPara: string)
    ensures cleanedPara == ParagraphText(para)
  {
    var lines := Split(para, "\n");
    cleanedPara := MergeLines(lines);
  }

  /** The merge loop over the lines of one paragraph. */
  method MergeLines(lines: seq<string>) returns (cleanedPara: string)
    ensures cleanedPara == Join(" ", StrippedLines(lines))
  {
    ghost var kept: seq<string> := [];
    var mergedLines: seq<string> := [];
    var currentLine: string := "";
    var i := 0;
    while i < |lines|
      invariant 0 <= i <= |lines|
      invariant kept == StrippedLines(lines[..i])
      invariant currentLine == [] <==> kept == []
      invariant currentLine == [] ==> mergedLines == []
      invariant currentLine != [] ==> Join(" ", mergedLines + [currentLine]) == Join(" ", kept)
    {
      var line := Strip(lines[i]);
      assert lines[..i + 1] == lines[..i] + [lines[i]];
      StrippedLinesSnoc(lines[..i], lines[i]);
      if line != [] {
        if currentLine != [] && currentLine[|currentLine| - 1] !in ClosingMarks {
          GlueKeepsJoin(mergedLines, currentLine, kept, line);
          currentLine := currentLine + " " + line;
        } else {
          FlushKeepsJoin(mergedLines, currentLine, kept, line);
          if currentLine != [] {
            mergedLines := mergedLines + [currentLine];
          }
          currentLine := line;
        }
        kept := kept + [line];
      }
      i := i + 1;
    }
    assert lines[..|lines|] == lines;
    if currentLine != [] {
      mergedLines := mergedLines + [currentLine];
    }
    cleanedPara := Join(" ", mergedLines);
  }

  /** Gluing a line to the current merged line keeps the joined text. */
  lemma GlueKeepsJoin(merged: seq<string>, current: string, kept: seq<string>, line: string)
    requires kept != [] && Join(" ", merged + [current]) == Join(" ", kept)
    ensures Join(" ", merged + [current + " " + line]) == Join(" ", kept + [line])
  {
    JoinSnoc(" ", kept, line);
    JoinExtendLast(" ", merged, current, " " + line);
    ConcatAssoc(current, " ", line);
    ConcatAssoc(Join(" ", kept), " ", line);
  }

  /** Closing the current merged line and starting a new one keeps the
      joined text too. */
  lemma FlushKeepsJoin(merged: seq<string>, current: string, kept: seq<string>, line: string)
    requires current == [] ==> merged == [] && kept == []
    requires current != [] ==> Join(" ", merged + [current]) == Join(" ", kept)
    ensures var m := if current != [] then merged + [current] else merged;
      Join(" ", m + [line]) == Join(" ", kept + [line])
  {
    JoinSnoc(" ", kept, line);
    if current != [] {
      JoinSnoc(" ", merged + [current], line);
    } else {
      assert kept + [line] == [line] && merged + [line] == [line];
    }
  }

  /** The paragraphs that survive the merge, in order. */
  function CleanParagraphs(paras: seq<string>): seq<string> {
    if paras == [] then []
    else
      var p := ParagraphText(paras[|paras| - 1]);
      CleanParagraphs(paras[..|paras| - 1]) + (if p == [] then [] else [p])
  }

  lemma CleanParagraphsSnoc(paras: seq<string>, x: string)
    ensures CleanParagraphs(paras + [x]) ==
      CleanParagraphs(paras) + (if ParagraphText(x) == [] then [] else [ParagraphText(x)])
  {
    assert (paras + [x])[..|paras|] == paras;
  }

  lemma CleanStep(paras: seq<string>, i: nat)
    requires i < |paras|
    ensures CleanParagraphs(paras[..i + 1]) ==
      CleanParagraphs(paras[..i]) + (if ParagraphText(paras[i]) == [] then [] else [ParagraphText(paras[i])])
  {
    assert paras[..i + 1] == paras[..i] + [paras[i]];
    CleanParagraphsSnoc(paras[..i], paras[i]);
  }

  /** `'\n\n'.join(cleaned_paragraphs)`. */
  function MergedText(text: string): string {
    Join("\n\n", CleanParagraphs(Split(text, "\n\n")))
  }

  /** The outer loop of `post_process_text`. */
  method MergeText(text: string) returns (merged: string)
    ensures merged == MergedText(text)
  {
    var paragraphs := Split(text, "\n\n");
    var cleanedParagraphs := CleanAll(paragraphs);
    merged := Join("\n\n", cleanedParagraphs);
  }

  /** The loop over the paragraphs. */
  method CleanAll(paragraphs: seq<string>) returns (cleanedParagraphs: seq<string>)
    ensures cleanedParagraphs == CleanParagraphs(paragraphs)
  {
    cleanedParagraphs := [];
    var i := 0;
    while i < |paragraphs|
      invariant 0 <= i <= |paragraphs|
      invariant cleanedParagraphs == CleanParagraphs(paragraphs[..i])
    {
      CleanStep(paragraphs, i);
      var cleanedPara := MergeParagraph(paragraphs[i]);
      if cleanedPara != [] {
        cleanedParagraphs := cleanedParagraphs + [cleanedPara];
      }
      i := i + 1;
    }
    assert paragraphs[..|paragraphs|] == paragraphs;
  }

  lemma {:induction false} StrippedLinesContent(lines: seq<string>)
    ensures NonSpaceAll(StrippedLines(lines)) == NonSpaceAll(lines)
  {
    if lines != [] {
      var init := lines[..|lines| - 1];
      var x := lines[|lines| - 1];
      StrippedLinesContent(init);
      assert lines == init + [x];
      StrippedLinesSnoc(init, x);
      NonSpaceAllSnoc(init, x);
      NonSpaceStrip(x);
      if Strip(x) != [] {
        NonSpaceAllSnoc(StrippedLines(init), Strip(x));
      } else {
        assert StrippedLines(lines) == StrippedLines(init);
        assert NonSpace(x) == [];
      }
    }
  }

  /** The merge of one paragraph changes its whitespace only. */
  lemma ParagraphContent(para: string)
    ensures NonSpace(ParagraphText(para)) == NonSpace(para)
  {
    var lines := Split(para, "\n");
    NonSpaceJoin(" ", StrippedLines(lines));
    StrippedLinesContent(lines);
    NonSpaceJoin("\n", lines);
    JoinSplit(para, "\n");
  }

  lemma {:induction false} CleanParagraphsContent(paras: seq<string>)
    ensures NonSpaceAll(CleanParagraphs(paras)) == NonSpaceAll(paras)
  {
    if paras != [] {
      var init := paras[..|paras| - 1];
      var x := paras[|paras| - 1];
      CleanParagraphsContent(init);
      assert paras == init + [x];
      CleanParagraphsSnoc(init, x);
      NonSpaceAllSnoc(init, x);
      ParagraphContent(x);
      if ParagraphText(x) != [] {
        NonSpaceAllSnoc(CleanParagraphs(init), ParagraphText(x));
      } else {
        assert CleanParagraphs(paras) == CleanParagraphs(init);
        assert NonSpace(x) == [];
      }
    }
  }

  lemma {:induction false} CleanParagraphsNonEmpty(paras: seq<string>)
    ensures forall k :: 0 <= k < |CleanParagraphs(paras)| ==> CleanParagraphs(paras)[k] != []
  {
    if paras != [] {
      CleanParagraphsNonEmpty(paras[..|paras| - 1]);
    }
  }

  /** The merge keeps every non-whitespace character of the text, in order,
      and adds none, whatever the closing-mark test decides; no paragraph of
      the result is empty. */
  lemma MergedTextMeaning(text: string)
    ensures NonSpace(MergedText(text)) == NonSpace(text)
    ensures forall k :: 0 <= k < |CleanParagraphs(Split(text, "\n\n"))| ==> CleanParagraphs(Split(text, "\n\n"))[k] != []
  {
    var paras := Split(text, "\n\n");
    NonSpaceJoin("\n\n", CleanParagraphs(paras));
    CleanParagraphsContent(paras);
    NonSpaceJoin("\n\n", paras);
    JoinSplit(text, "\n\n");
    CleanParagraphsNonEmpty(paras);
  }

  // ---------------------------------------------------------------------
  // post_process_text: the table of common OCR confusions

  /** `common_fixes`, in the order a Python dict keeps its entries. */
  const CommonFixes: seq<(string, string)> := [
    ("l", "I"), ("0", "O"), ("|", "I"), ("1", "l"), ("rn", "m"),
    ("[", "("), ("]", ")"), ("{", "("), ("}", ")")
  ]

  predicate Replaceable(fixes: seq<(string, string)>) {
    forall k :: 0 <= k < |fixes| ==> |fixes[k].0| > 0
  }

  /** `for wrong, correct in fixes: text = text.replace(wrong, correct)`. */
  function ApplyFixes(text: string, fixes: seq<(string, string)>): string
    requires Replaceable(fixes)
    decreases |fixes|
  {
    if fixes == [] then text else ApplyFixes(Replace(text, fixes[0].0, fixes[0].1), fixes[1..])
  }

  /** The table of `post_process_text` applied to the merged text. */
  method ReplaceCommonFixes(text: string) returns (r: string)
    ensures r == CommonFixed(text)
  {
    assert Replaceable(CommonFixes);
    r := ReplaceAll(text, CommonFixes);
  }

  /** The substitution loop of `post_process_text`, over any table. */
  method ReplaceAll(text: string, fixes: seq<(string, string)>) returns (r: string)
    requires Replaceable(fixes)
    ensures r == ApplyFixes(text, fixes)
  {
    r := text;
    var i := 0;
    while i < |fixes|
      invariant 0 <= i <= |fixes|
      invariant ApplyFixes(r, fixes[i..]) == ApplyFixes(text, fixes)
    {
      var (wrong, correct) := fixes[i];
      assert fixes[i..][1..] == fixes[i + 1..];
      r := Replace(r, wrong, correct);
      i := i + 1;
    }
  }

  /** Replacing one character by another is a character-wise map. */
  lemma {:induction false} ReplaceCharShape(s: string, x: char, y: char)
    ensures |Replace(s, [x], [y])| == |s|
    ensures forall i :: 0 <= i < |s| ==> Replace(s, [x], [y])[i] == if s[i] == x then y else s[i]
    decreases |s|
  {
    if |s| >= 1 {
      ReplaceCharShape(s[1..], x, y);
      var rest := Replace(s[1..], [x], [y]);
      assert s[..1] == [s[0]];
      var r := Replace(s, [x], [y]);
      assert r == [if s[0] == x then y else s[0]] + rest;
      forall i | 1 <= i < |s| ensures r[i] == if s[i] == x then y else s[i] {
        assert r[i] == rest[i - 1] && s[i] == s[1..][i - 1];
      }
    }
  }

  /** How a one-character replacement moves the count of one character:
      `x` is gone and every `x` now counts as a `y`. */
  lemma {:induction false} ReplaceCharCount(s: string, x: char, y: char, c: char)
    requires x != y
    ensures Count(Replace(s, [x], [y]), [c]) ==
      if c == x then 0 else if c == y then Count(s, [x]) + Count(s, [y]) else Count(s, [c])
    decreases |s|
  {
    if |s| >= 1 {
      var rest := Replace(s[1..], [x], [y]);
      ReplaceCharCount(s[1..], x, y, c);
      assert s[..1] == [s[0]];
      var h := if s[0] == x then y else s[0];
      var r := Replace(s, [x], [y]);
      assert r == [h] + rest;
      assert r[..1] == [h] && r[1..] == rest;
    }
  }

  /** A replacement leaves alone the count of a character that is in
      neither the target nor the replacement. */
  lemma {:induction false} ReplaceKeepsCount(s: string, t: string, u: string, c: char)
    requires |t| > 0 && c !in t && c !in u
    ensures Count(Replace(s, t, u), [c]) == Count(s, [c])
    decreases |s|
  {
    if |s| >= |t| {
      if s[..|t|] == t {
        ReplaceKeepsCount(s[|t|..], t, u, c);
        assert s == t + s[|t|..];
        CountCharAppend(u, Replace(s[|t|..], t, u), c);
        CountCharAppend(t, s[|t|..], c);
        CountCharAbsent(t, c);
        CountCharAbsent(u, c);
      } else {
        ReplaceKeepsCount(s[1..], t, u, c);
        assert s == [s[0]] + s[1..];
        CountCharAppend([s[0]], Replace(s[1..], t, u), c);
        CountCharAppend([s[0]], s[1..], c);
      }
    }
  }

  /** Replacing `"rn"` by `"m"` leaves no `"rn"` behind. */
  lemma {:induction false} ReplaceRnLeavesNone(s: string)
    ensures NoPair(Replace(s, "rn", "m"), 'r', 'n')
    ensures s != [] ==>
              Replace(s, "rn", "m") != [] && (Replace(s, "rn", "m")[0] == 'm' || Replace(s, "rn", "m")[0] == s[0])
    decreases |s|
  {
    var r := Replace(s, "rn", "m");
    if |s| >= 2 {
      if s[..2] == "rn" {
        var rest := Replace(s[2..], "rn", "m");
        ReplaceRnLeavesNone(s[2..]);
        assert r == "m" + rest;
        forall i | 1 <= i < |r| - 1 ensures !(r[i] == 'r' && r[i + 1] == 'n') {
          assert r[i] == rest[i - 1] && r[i + 1] == rest[i];
        }
      } else {
        var rest := Replace(s[1..], "rn", "m");
        ReplaceRnLeavesNone(s[1..]);
        assert r == [s[0]] + rest;
        if s[0] == 'r' {
          assert s[..2] == [s[0], s[1]];
          assert s[1..][0] == s[1];
          assert rest[0] != 'n';
        }
        forall i | 1 <= i < |r| - 1 ensures !(r[i] == 'r' && r[i + 1] == 'n') {
          assert r[i] == rest[i - 1] && r[i + 1] == rest[i];
        }
      }
    }
  }

  /** A one-character replacement that involves neither `r` nor `n`
      cannot create an `"rn"`. */
  lemma ReplaceCharKeepsNoRn(s: string, x: char, y: char)
    requires NoPair(s, 'r', 'n') && x != 'r' && x != 'n' && y != 'r' && y != 'n'
    ensures NoPair(Replace(s, [x], [y]), 'r', 'n')
  {
    ReplaceCharShape(s, x, y);
  }

  /** The entries before `"rn"`, which move single characters. */
  const FirstFour: seq<(string, string)> := [("l", "I"), ("0", "O"), ("|", "I"), ("1", "l")]

  /** The entries after `"rn"`, which turn brackets and braces into
      parentheses. */
  const LastFour: seq<(string, string)> := [("[", "("), ("]", ")"), ("{", "("), ("}", ")")]

  /** The table applied to a text. */
  function CommonFixed(text: string): string {
    assert Replaceable(CommonFixes);
    ApplyFixes(text, CommonFixes)
  }

  /** The first four entries applied to a text. */
  function FirstFourFixed(text: string): string {
    assert Replaceable(FirstFour);
    ApplyFixes(text, FirstFour)
  }

  /** The last four entries applied to a text. */
  function LastFourFixed(text: string): string {
    assert Replaceable(LastFour);
    ApplyFixes(text, LastFour)
  }

  /** Applying two lists of fixes one after the other is applying their
      concatenation. */
  lemma {:induction false} ApplyFixesAppend(text: string, a: seq<(string, string)>, b: seq<(string, string)>)
    requires Replaceable(a) && Replaceable(b)
    ensures Replaceable(a + b)
    ensures ApplyFixes(text, a + b) == ApplyFixes(ApplyFixes(text, a), b)
    decreases |a|
  {
    assert Replaceable(a + b) by {
      forall k | 0 <= k < |a + b| ensures |(a + b)[k].0| > 0 {
        if k >= |a| {
          assert (a + b)[k] == b[k - |a|];
        }
      }
    }
    if a == [] {
      assert a + b == b;
    } else {
      assert (a + b)[0] == a[0];
      assert (a + b)[1..] == a[1..] + b;
      ApplyFixesAppend(Replace(text, a[0].0, a[0].1), a[1..], b);
    }
  }

  lemma CommonFixesParts()
    ensures CommonFixes == FirstFour + [("rn", "m")] + LastFour
  {
  }

  /** The table is the first four entries, then `"rn"`, then the last four. */
  lemma CommonFixesSplit(text: string)
    ensures CommonFixed(text) == LastFourFixed(Replace(FirstFourFixed(text), "rn", "m"))
  {
    CommonFixesParts();
    ApplyAround(text, FirstFour, ("rn", "m"), LastFour);
  }

  /** Applying `a`, one entry `m`, then `b`. */
  lemma ApplyAround(text: string, a: seq<(string, string)>, m: (string, string), b: seq<(string, string)>)
    requires Replaceable(a) && |m.0| > 0 && Replaceable(b)
    ensures Replaceable(a + [m] + b)
    ensures ApplyFixes(text, a + [m] + b) == ApplyFixes(Replace(ApplyFixes(text, a), m.0, m.1), b)
  {
    var one := [m];
    ApplyFixesAppend(text, a, one);
    ApplyFixesAppend(text, a + one, b);
    ApplyFixesAppend(ApplyFixes(text, a), one, b);
    assert one[1..] == [];
  }

  lemma FirstFourSteps(text: string)
    ensures FirstFourFixed(text) == Replace(Replace(Replace(Replace(text, "l", "I"), "0", "O"), "|", "I"), "1", "l")
  {
    var f1 := [("0", "O"), ("|", "I"), ("1", "l")];
    var f2 := [("|", "I"), ("1", "l")];
    var f3 := [("1", "l")];
    assert FirstFour[1..] == f1 && f1[1..] == f2 && f2[1..] == f3 && f3[1..] == [];
  }

  lemma LastFourSteps(t5: string)
    ensures LastFourFixed(t5) == Replace(Replace(Replace(Replace(t5, "[", "("), "]", ")"), "{", "("), "}", ")")
  {
    var f1 := [("]", ")"), ("{", "("), ("}", ")")];
    var f2 := [("{", "("), ("}", ")")];
    var f3 := [("}", ")")];
    assert LastFour[1..] == f1 && f1[1..] == f2 && f2[1..] == f3 && f3[1..] == [];
  }

  /** The counts after the first four entries; the `l` to `I` entry runs
      before the `1` to `l` one. */
  lemma FirstFourCounts(text: string)
    ensures var t4 := FirstFourFixed(text);
      && Count(t4, "0") == 0 && Count(t4, "|") == 0 && Count(t4, "1") == 0
      && Count(t4, "l") == Count(text, "1")
      && Count(t4, "I") == Count(text, "I") + Count(text, "l") + Count(text, "|")
      && Count(t4, "O") == Count(text, "O") + Count(text, "0")
  {
    FirstFourSteps(text);
    var t1 := Replace(text, "l", "I");
    var t2 := Replace(t1, "0", "O");
    var t3 := Replace(t2, "|", "I");
    ReplaceCharCount(text, 'l', 'I', '0');
    ReplaceCharCount(text, 'l', 'I', '|');
    ReplaceCharCount(text, 'l', 'I', '1');
    ReplaceCharCount(text, 'l', 'I', 'O');
    ReplaceCharCount(text, 'l', 'I', 'I');
    ReplaceCharCount(text, 'l', 'I', 'l');
    ReplaceCharCount(t1, '0', 'O', '0');
    ReplaceCharCount(t1, '0', 'O', '|');
    ReplaceCharCount(t1, '0', 'O', '1');
    ReplaceCharCount(t1, '0', 'O', 'O');
    ReplaceCharCount(t1, '0', 'O', 'I');
    ReplaceCharCount(t1, '0', 'O', 'l');
    ReplaceCharCount(t2, '|', 'I', '0');
    ReplaceCharCount(t2, '|', 'I', '|');
    ReplaceCharCount(t2, '|', 'I', '1');
    ReplaceCharCount(t2, '|', 'I', 'O');
    ReplaceCharCount(t2, '|', 'I', 'I');
    ReplaceCharCount(t2, '|', 'I', 'l');
    ReplaceCharCount(t3, '1', 'l', '0');
    ReplaceCharCount(t3, '1', 'l', '|');
    ReplaceCharCount(t3, '1', 'l', '1');
    ReplaceCharCount(t3, '1', 'l', 'O');
    ReplaceCharCount(t3, '1', 'l', 'I');
    ReplaceCharCount(t3, '1', 'l', 'l');
  }

  /** The first four entries leave every other character alone. */
  lemma FirstFourKeep(text: string, c: char)
    requires c !in "l0|1IO"
    ensures Count(FirstFourFixed(text), [c]) == Count(text, [c])
  {
    FirstFourSteps(text);
    var t1 := Replace(text, "l", "I");
    var t2 := Replace(t1, "0", "O");
    var t3 := Replace(t2, "|", "I");
    ReplaceCharCount(text, 'l', 'I', c);
    ReplaceCharCount(t1, '0', 'O', c);
    ReplaceCharCount(t2, '|', 'I', c);
    ReplaceCharCount(t3, '1', 'l', c);
  }

  /** The counts after the last four entries. */
  lemma LastFourCounts(t5: string)
    ensures var t9 := LastFourFixed(t5);
      && Count(t9, "[") == 0 && Count(t9, "]") == 0 && Count(t9, "{") == 0 && Count(t9, "}") == 0
      && Count(t9, "(") == Count(t5, "(") + Count(t5, "[") + Count(t5, "{")
      && Count(t9, ")") == Count(t5, ")") + Count(t5, "]") + Count(t5, "}")
  {
    LastFourSteps(t5);
    var t6 := Replace(t5, "[", "(");
    var t7 := Replace(t6, "]", ")");
    var t8 := Replace(t7, "{", "(");
    ReplaceCharCount(t5, '[', '(', '[');
    ReplaceCharCount(t5, '[', '(', ']');
    ReplaceCharCount(t5, '[', '(', '{');
    ReplaceCharCount(t5, '[', '(', '}');
    ReplaceCharCount(t5, '[', '(', '(');
    ReplaceCharCount(t5, '[', '(', ')');
    ReplaceCharCount(t6, ']', ')', '[');
    ReplaceCharCount(t6, ']', ')', ']');
    ReplaceCharCount(t6, ']', ')', '{');
    ReplaceCharCount(t6, ']', ')', '}');
    ReplaceCharCount(t6, ']', ')', '(');
    ReplaceCharCount(t6, ']', ')', ')');
    ReplaceCharCount(t7, '{', '(', '[');
    ReplaceCharCount(t7, '{', '(', ']');
    ReplaceCharCount(t7, '{', '(', '{');
    ReplaceCharCount(t7, '{', '(', '}');
    ReplaceCharCount(t7, '{', '(', '(');
    ReplaceCharCount(t7, '{', '(', ')');
    ReplaceCharCount(t8, '}', ')', '[');
    ReplaceCharCount(t8, '}', ')', ']');
    ReplaceCharCount(t8, '}', ')', '{');
    ReplaceCharCount(t8, '}', ')', '}');
    ReplaceCharCount(t8, '}', ')', '(');
    ReplaceCharCount(t8, '}', ')', ')');
  }

  /** The last four entries leave every other character alone. */
  lemma LastFourKeep(t5: string, c: char)
    requires c !in "[]{}()"
    ensures Count(LastFourFixed(t5), [c]) == Count(t5, [c])
  {
    LastFourSteps(t5);
    var t6 := Replace(t5, "[", "(");
    var t7 := Replace(t6, "]", ")");
    var t8 := Replace(t7, "{", "(");
    ReplaceCharCount(t5, '[', '(', c);
    ReplaceCharCount(t6, ']', ')', c);
    ReplaceCharCount(t7, '{', '(', c);
    ReplaceCharCount(t8, '}', ')', c);
  }

  /** The last four entries cannot create an `"rn"`. */
  lemma LastFourKeepNoRn(t5: string)
    requires NoPair(t5, 'r', 'n')
    ensures NoPair(LastFourFixed(t5), 'r', 'n')
  {
    LastFourSteps(t5);
    var t6 := Replace(t5, "[", "(");
    var t7 := Replace(t6, "]", ")");
    var t8 := Replace(t7, "{", "(");
    ReplaceCharKeepsNoRn(t5, '[', '(');
    ReplaceCharKeepsNoRn(t6, ']', ')');
    ReplaceCharKeepsNoRn(t7, '{', '(');
    ReplaceCharKeepsNoRn(t8, '}', ')');
  }

  /** The `"rn"` entry leaves the letters and digits of the table alone. */
  lemma RnKeepsLetters(t4: string)
    ensures Count(Replace(t4, "rn", "m"), "0") == Count(t4, "0")
      && Count(Replace(t4, "rn", "m"), "|") == Count(t4, "|")
      && Count(Replace(t4, "rn", "m"), "1") == Count(t4, "1")
      && Count(Replace(t4, "rn", "m"), "l") == Count(t4, "l")
      && Count(Replace(t4, "rn", "m"), "I") == Count(t4, "I")
      && Count(Replace(t4, "rn", "m"), "O") == Count(t4, "O")
  {
    ReplaceKeepsCount(t4, "rn", "m", '0');
    ReplaceKeepsCount(t4, "rn", "m", '|');
    ReplaceKeepsCount(t4, "rn", "m", '1');
    ReplaceKeepsCount(t4, "rn", "m", 'l');
    ReplaceKeepsCount(t4, "rn", "m", 'I');
    ReplaceKeepsCount(t4, "rn", "m", 'O');
  }

  /** The `"rn"` entry leaves the brackets alone. */
  lemma RnKeepsBrackets(t4: string)
    ensures Count(Replace(t4, "rn", "m"), "[") == Count(t4, "[")
      && Count(Replace(t4, "rn", "m"), "]") == Count(t4, "]")
      && Count(Replace(t4, "rn", "m"), "{") == Count(t4, "{")
      && Count(Replace(t4, "rn", "m"), "}") == Count(t4, "}")
      && Count(Replace(t4, "rn", "m"), "(") == Count(t4, "(")
      && Count(Replace(t4, "rn", "m"), ")") == Count(t4, ")")
  {
    ReplaceKeepsCount(t4, "rn", "m", '[');
    ReplaceKeepsCount(t4, "rn", "m", ']');
    ReplaceKeepsCount(t4, "rn", "m", '{');
    ReplaceKeepsCount(t4, "rn", "m", '}');
    ReplaceKeepsCount(t4, "rn", "m", '(');
    ReplaceKeepsCount(t4, "rn", "m", ')');
  }

  /** The last four entries leave the letters and digits of the table alone. */
  lemma LastFourKeepsLetters(t5: string)
    ensures Count(LastFourFixed(t5), "0") == Count(t5, "0")
      && Count(LastFourFixed(t5), "|") == Count(t5, "|")
      && Count(LastFourFixed(t5), "1") == Count(t5, "1")
      && Count(LastFourFixed(t5), "l") == Count(t5, "l")
      && Count(LastFourFixed(t5), "I") == Count(t5, "I")
      && Count(LastFourFixed(t5), "O") == Count(t5, "O")
  {
    LastFourKeep(t5, '0');
    LastFourKeep(t5, '|');
    LastFourKeep(t5, '1');
    LastFourKeep(t5, 'l');
    LastFourKeep(t5, 'I');
    LastFourKeep(t5, 'O');
  }

  /** The first four entries leave the brackets alone. */
  lemma FirstFourKeepsBrackets(text: string)
    ensures Count(FirstFourFixed(text), "[") == Count(text, "[")
      && Count(FirstFourFixed(text), "]") == Count(text, "]")
      && Count(FirstFourFixed(text), "{") == Count(text, "{")
      && Count(FirstFourFixed(text), "}") == Count(text, "}")
      && Count(FirstFourFixed(text), "(") == Count(text, "(")
      && Count(FirstFourFixed(text), ")") == Count(text, ")")
  {
    FirstFourKeep(text, '[');
    FirstFourKeep(text, ']');
    FirstFourKeep(text, '{');
    FirstFourKeep(text, '}');
    FirstFourKeep(text, '(');
    FirstFourKeep(text, ')');
  }

  /** The letters and digits the table moves: no `0`, `|` or `1` is left,
      every `l` of the result was a `1` (the `l` to `I` entry comes first),
      every `I` was an `I`, `l` or `|`, and every `O` an `O` or `0`. */
  lemma CommonFixesLetterCounts(text: string)
    ensures var r := CommonFixed(text);
      && Count(r, "0") == 0 && Count(r, "|") == 0 && Count(r, "1") == 0
      && Count(r, "l") == Count(text, "1")
      && Count(r, "I") == Count(text, "I") + Count(text, "l") + Count(text, "|")
      && Count(r, "O") == Count(text, "O") + Count(text, "0")
  {
    var t4 := FirstFourFixed(text);
    var t5 := Replace(t4, "rn", "m");
    CommonFixesSplit(text);
    FirstFourCounts(text);
    RnKeepsLetters(t4);
    LastFourKeepsLetters(t5);
  }

  /** The brackets the table moves: no square bracket or brace is left, and
      every parenthesis was a parenthesis, bracket or brace of its side. */
  lemma CommonFixesBracketCounts(text: string)
    ensures var r := CommonFixed(text);
      && Count(r, "[") == 0 && Count(r, "]") == 0 && Count(r, "{") == 0 && Count(r, "}") == 0
      && Count(r, "(") == Count(text, "(") + Count(text, "[") + Count(text, "{")
      && Count(r, ")") == Count(text, ")") + Count(text, "]") + Count(text, "}")
  {
    var t4 := FirstFourFixed(text);
    var t5 := Replace(t4, "rn", "m");
    CommonFixesSplit(text);
    FirstFourKeepsBrackets(text);
    RnKeepsBrackets(t4);
    LastFourCounts(t5);
  }

  /** Every character the table does not mention occurs as often as before. */
  lemma CommonFixesKeep(text: string, c: char)
    requires c !in "l0|1IOrnm[]{}()"
    ensures Count(CommonFixed(text), [c]) == Count(text, [c])
  {
    var t4 := FirstFourFixed(text);
    var t5 := Replace(t4, "rn", "m");
    CommonFixesSplit(text);
    FirstFourKeep(text, c);
    ReplaceKeepsCount(t4, "rn", "m", c);
    LastFourKeep(t5, c);
  }

  /** No `"rn"` is left after the table. */
  lemma CommonFixesLeaveNoRn(text: string)
    ensures NoPair(CommonFixed(text), 'r', 'n')
  {
    var t4 := FirstFourFixed(text);
    CommonFixesSplit(text);
    ReplaceRnLeavesNone(t4);
    LastFourKeepNoRn(Replace(t4, "rn", "m"));
  }

  /** The characters the table removes are all gone. */
  lemma CommonFixesMeaning(text: string)
    ensures var r := CommonFixed(text);
      && '0' !in r && '|' !in r && '1' !in r
      && '[' !in r && ']' !in r && '{' !in r && '}' !in r
      && NoPair(r, 'r', 'n')
  {
    CommonFixesLeaveNoRn(text);
    CommonFixesLetterCounts(text);
    CommonFixesBracketCounts(text);
    AbsentWhenUncounted(CommonFixed(text));
  }

  lemma AbsentWhenUncounted(r: string)
    requires Count(r, "0") == 0 && Count(r, "|") == 0 && Count(r, "1") == 0
    requires Count(r, "[") == 0 && Count(r, "]") == 0 && Count(r, "{") == 0 && Count(r, "}") == 0
    ensures '0' !in r && '|' !in r && '1' !in r && '[' !in r && ']' !in r && '{' !in r && '}' !in r
  {
    CountCharAbsent(r, '0');
    CountCharAbsent(r, '|');
    CountCharAbsent(r, '1');
    CountCharAbsent(r, '[');
    CountCharAbsent(r, ']');
    CountCharAbsent(r, '{');
    CountCharAbsent(r, '}');
  }

  /** `post_process_text` up to the regular-expression stages. */
  method PostProcessText(text: string) returns (r: string)
    ensures text == [] ==> r == text
    ensures text != [] ==> r == CommonFixed(MergedText(text))
  {
    if text == [] {
      return text;
    }
    var merged := MergeText(text);
    r := ReplaceCommonFixes(merged);
  }

  // ---------------------------------------------------------------------
  // post_process_translation

  /** `re.sub(r'\s+', ' ', text)`: every run of whitespace becomes one
      space. */
  function CollapseSpace(s: string): string
    decreases |s|
  {
    if s == [] then []
    else if IsSpace(s[0]) then " " + CollapseSpace(LStrip(s[1..]))
    else [s[0]] + CollapseSpace(s[1..])
  }

  /** `post_process_translation`. The second substitution of the source,
      `\s*\n\s*` to a newline, needs a newline to match, and the collapse
      leaves none, so it changes nothing and is not written out. */
  function PostProcessTranslation(chunks: seq<string>): string {
    Strip(CollapseSpace(Join(" ", chunks)))
  }

  /** The only whitespace is single spaces. */
  predicate SingleSpaced(s: string) {
    && (forall i :: 0 <= i < |s| && IsSpace(s[i]) ==> s[i] == ' ')
    && NoPair(s, ' ', ' ')
  }

  /** After the collapse the only whitespace left is single spaces, and
      nothing else has changed. */
  lemma {:induction false} CollapseSpaceShape(s: string)
    ensures SingleSpaced(CollapseSpace(s))
    ensures NonSpace(CollapseSpace(s)) == NonSpace(s)
    ensures CollapseSpace(s) == [] <==> s == []
    ensures s != [] ==> (IsSpace(CollapseSpace(s)[0]) <==> IsSpace(s[0]))
    decreases |s|
  {
    if s != [] {
      if IsSpace(s[0]) {
        var l := LStrip(s[1..]);
        LStripShape(s[1..]);
        CollapseSpaceShape(l);
        var rest := CollapseSpace(l);
        SingleSpacedCons(' ', rest);
        NonSpaceLStrip(s[1..]);
        NonSpaceCons(' ', rest);
      } else {
        var rest := CollapseSpace(s[1..]);
        CollapseSpaceShape(s[1..]);
        SingleSpacedCons(s[0], rest);
        NonSpaceCons(s[0], rest);
      }
    }
  }

  /** A character in front of a single-spaced text keeps it single spaced
      when it is a space before a non-space or not whitespace at all. */
  lemma SingleSpacedCons(x: char, rest: string)
    requires SingleSpaced(rest)
    requires IsSpace(x) ==> x == ' ' && (rest == [] || !IsSpace(rest[0]))
    ensures SingleSpaced([x] + rest)
  {
    var r := [x] + rest;
    forall i | 1 <= i < |r| ensures r[i] == rest[i - 1] {
    }
  }

  lemma NonSpaceCons(x: char, rest: string)
    ensures NonSpace([x] + rest) == (if IsSpace(x) then [] else [x]) + NonSpace(rest)
  {
    assert ([x] + rest)[1..] == rest;
  }

  /** A slice of a single-spaced text is single spaced and has no newline. */
  lemma SingleSpacedSlice(c: string, a: int, b: int)
    requires 0 <= a <= b <= |c| && SingleSpaced(c)
    ensures SingleSpaced(c[a..b]) && '\n' !in c[a..b]
  {
    var r := c[a..b];
    assert forall i :: 0 <= i < |r| ==> r[i] == c[a + i];
    if '\n' in r {
      var k :| 0 <= k < |r| && r[k] == '\n';
      assert IsSpace(c[a + k]);
    }
  }

  /** The result has no newline, no whitespace but single spaces between
      words, no space at either end, and every non-whitespace character of
      the pieces, in order. */
  lemma PostProcessTranslationMeaning(chunks: seq<string>)
    ensures var r := PostProcessTranslation(chunks);
      && '\n' !in r
      && SingleSpaced(r)
      && (r == [] || (r[0] != ' ' && r[|r| - 1] != ' '))
      && NonSpace(r) == NonSpaceAll(chunks)
  {
    var j := Join(" ", chunks);
    var c := CollapseSpace(j);
    CollapseSpaceShape(j);
    StripSingleSpaced(c);
    NonSpaceStrip(c);
    NonSpaceJoin(" ", chunks);
  }

  /** Stripping a single-spaced text keeps it single spaced and leaves no
      space at either end. */
  lemma StripSingleSpaced(c: string)
    requires SingleSpaced(c)
    ensures var r := Strip(c);
      && '\n' !in r && SingleSpaced(r)
      && (r == [] || (r[0] != ' ' && r[|r| - 1] != ' '))
  {
    var r := Strip(c);
    StripShape(c);
    var a := |c| - |LStrip(c)|;
    SingleSpacedSlice(c, a, a + |r|);
  }
}
