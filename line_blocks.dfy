/** The two line-block commands of the text editor. `toggle_list` adds or
    removes a bullet (`"• "`) or number (`"1. "`, `"2. "`, ...) marker on
    every line of the block, deciding from the first line alone whether the
    block already is a list. `change_indent` gives every line of the block
    the same indentation, one four-space level more or less than the number
    of four-space runs found in the block. The block is the text of the
    selected lines (or of the line holding the cursor); reading it from and
    writing it back into the text widget is not part of the model. */
module LineBlocks {
  import opened Outcomes
  import opened PyText

  // ---------------------------------------------------------------------
  // toggle_list

  /** The characters `line.lstrip('• 0123456789. ')` removes. */
  const ListMarks: set<char> := {'•', ' ', '0', '1', '2', '3', '4', '5', '6', '7', '8', '9', '.'}

  /** The test on the left-stripped first line: a bullet list starts with
      `"• "`; a numbered list starts with `f"{num}. "`, where `num` is
      `int()` of the text before the first `.` (a text `int()` rejects
      makes it no list). Any other list type is never a list. */
  predicate IsList(firstLine: string, listType: string) {
    if listType == "bullet" then StartsWith(firstLine, "• ")
    else if listType == "number" then
      match ParseInt(Split(firstLine, ".")[0])
      case None => false
      case Some(num) => StartsWith(firstLine, IntToStr(num) + ". ")
    else false
  }

  /** The marker put in front of line `i` (counted from 1). */
  function Marker(listType: string, i: nat): string {
    if listType == "bullet" then "• " else NatToStr(i) + ". "
  }

  /** A line after the toggle, `marker` being the marker of its position. */
  function ToggledLine(line: string, marker: string, isList: bool): string {
    var stripped := LStripChars(line, ListMarks);
    if isList then stripped else marker + stripped
  }

  /** Every line toggled the same way, decided once for the block. */
  function ToggledLines(lines: seq<string>, isList: bool, listType: string): seq<string> {
    seq(|lines|, k requires 0 <= k < |lines| => ToggledLine(lines[k], Marker(listType, k + 1), isList))
  }

  /** Whether the block counts as a list: the test on its first line. */
  predicate BlockIsList(lines: seq<string>, listType: string)
    requires lines != []
  {
    IsList(LStrip(lines[0]), listType)
  }

  /** The text `toggle_list` puts back in place of the block. */
  function ToggledText(block: string, listType: string): string {
    var lines := Split(block, "\n");
    Join("\n", ToggledLines(lines, BlockIsList(lines, listType), listType))
  }

  /** `toggle_list`: the block's lines, each toggled the way its first
      line decides, joined again. */
  method ToggleList(block: string, listType: string) returns (text: string)
    ensures text == ToggledText(block, listType)
  {
    var lines := Split(block, "\n");
    var isList := IsList(LStrip(lines[0]), listType);
    var newLines := ToggleLines(lines, isList, listType);
    text := Join("\n", newLines);
  }

  /** The loop of `toggle_list` over the lines. */
  method ToggleLines(lines: seq<string>, isList: bool, listType: string) returns (newLines: seq<string>)
    ensures newLines == ToggledLines(lines, isList, listType)
  {
    newLines := [];
    var i := 0;
    while i < |lines|
      invariant 0 <= i <= |lines|
      invariant newLines == ToggledLines(lines, isList, listType)[..i]
    {
      var stripped := LStripChars(lines[i], ListMarks);
      if isList {
        newLines := newLines + [stripped];
      } else {
        var prefix := if listType == "bullet" then "• " else NatToStr(i + 1) + ". ";
        newLines := newLines + [prefix + stripped];
      }
      i := i + 1;
    }
  }

  lemma MarkerChars(listType: string, i: nat)
    ensures forall j :: 0 <= j < |Marker(listType, i)| ==> Marker(listType, i)[j] in ListMarks
  {
    if listType != "bullet" {
      var d := NatToStr(i);
      var m := d + ". ";
      forall j | 0 <= j < |m| ensures m[j] in ListMarks {
        if j < |d| {
          assert m[j] == d[j];
          assert IsDigit(d[j]);
        }
      }
    }
  }

  /** A toggled line holds no newline when the line did not. */
  lemma ToggledLineFree(line: string, marker: string, isList: bool)
    requires '\n' !in line && '\n' !in marker
    ensures '\n' !in ToggledLine(line, marker, isList)
  {
    var s := LStripChars(line, ListMarks);
    LStripCharsShape(line, ListMarks);
    NotInSuffix(line, |line| - |s|, '\n');
  }

  /** No marker holds a newline. */
  lemma MarkerFree(listType: string, i: nat)
    ensures '\n' !in Marker(listType, i)
  {
    MarkerChars(listType, i);
  }

  /** The output, split at newlines again, has one line per line of the
      block: a list loses the leading markers of every line, anything else
      gets line `k`'s marker in front of what is left of line `k` once its
      markers are gone. */
  lemma ToggleListLines(block: string, listType: string)
    ensures var lines := Split(block, "\n");
      var out := Split(ToggledText(block, listType), "\n");
      && |out| == |lines|
      && forall k :: 0 <= k < |lines| ==>
           out[k] == (if IsList(LStrip(lines[0]), listType) then LStripChars(lines[k], ListMarks)
                      else Marker(listType, k + 1) + LStripChars(lines[k], ListMarks))
  {
    var lines := Split(block, "\n");
    SplitPiecesFree(block, '\n');
    SplitToggled(lines, BlockIsList(lines, listType), listType);
    ToggledLinesShape(lines, BlockIsList(lines, listType), listType);
  }

  lemma ToggledLinesShape(lines: seq<string>, isList: bool, listType: string)
    ensures var ts := ToggledLines(lines, isList, listType);
      && |ts| == |lines|
      && forall k :: 0 <= k < |lines| ==>
           ts[k] == (if isList then LStripChars(lines[k], ListMarks)
                     else Marker(listType, k + 1) + LStripChars(lines[k], ListMarks))
  {
    forall k | 0 <= k < |lines|
      ensures ToggledLines(lines, isList, listType)[k] ==
        (if isList then LStripChars(lines[k], ListMarks) else Marker(listType, k + 1) + LStripChars(lines[k], ListMarks))
    {
      ToggledLineAt(lines, isList, listType, k);
    }
  }

  lemma ToggledLineAt(lines: seq<string>, isList: bool, listType: string, k: int)
    requires 0 <= k < |lines|
    ensures ToggledLines(lines, isList, listType)[k] ==
      (if isList then LStripChars(lines[k], ListMarks) else Marker(listType, k + 1) + LStripChars(lines[k], ListMarks))
  {
  }

  lemma SplitToggled(lines: seq<string>, isList: bool, listType: string)
    requires lines != [] && forall k :: 0 <= k < |lines| ==> '\n' !in lines[k]
    ensures Split(Join("\n", ToggledLines(lines, isList, listType)), "\n") == ToggledLines(lines, isList, listType)
  {
    ToggledLinesFree(lines, isList, listType);
    SplitJoin(ToggledLines(lines, isList, listType), '\n');
  }

  lemma ToggledLinesFree(lines: seq<string>, isList: bool, listType: string)
    requires forall k :: 0 <= k < |lines| ==> '\n' !in lines[k]
    ensures forall k :: 0 <= k < |lines| ==> '\n' !in ToggledLines(lines, isList, listType)[k]
  {
    forall k | 0 <= k < |lines| ensures '\n' !in ToggledLines(lines, isList, listType)[k] {
      ToggledLineAtFree(lines, isList, listType, k);
    }
  }

  lemma ToggledLineAtFree(lines: seq<string>, isList: bool, listType: string, k: int)
    requires 0 <= k < |lines| && '\n' !in lines[k]
    ensures '\n' !in ToggledLines(lines, isList, listType)[k]
  {
    MarkerFree(listType, k + 1);
    ToggledLineFree(lines[k], Marker(listType, k + 1), isList);
  }

  /** Removing the markers twice removes nothing more. */
  lemma LStripCharsAgain(s: string, cs: set<char>)
    ensures LStripChars(LStripChars(s, cs), cs) == LStripChars(s, cs)
  {
    LStripCharsShape(s, cs);
  }

  /** The markers of line `i` are swallowed by the next toggle. */
  lemma {:induction false} LStripCharsPrefix(p: string, s: string, cs: set<char>)
    requires forall j :: 0 <= j < |p| ==> p[j] in cs
    ensures LStripChars(p + s, cs) == LStripChars(s, cs)
  {
    if p == [] {
      assert p + s == s;
    } else {
      assert (p + s)[1..] == p[1..] + s;
      LStripCharsPrefix(p[1..], s, cs);
    }
  }

  /** Toggling a block that is not a list makes it a list: the first line of
      the result passes the test of its own list type. */
  lemma ToggleListMakesList(block: string, listType: string)
    requires listType == "bullet" || listType == "number"
    requires !IsList(LStrip(Split(block, "\n")[0]), listType)
    ensures IsList(LStrip(Split(ToggledText(block, listType), "\n")[0]), listType)
  {
    var lines := Split(block, "\n");
    ToggleListLines(block, listType);
    var s := LStripChars(lines[0], ListMarks);
    if listType == "number" {
      NumberMarkerIsList(s);
    } else {
      BulletMarkerIsList(s);
    }
  }

  lemma BulletMarkerIsList(s: string)
    ensures IsList(LStrip(Marker("bullet", 1) + s), "bullet")
  {
    var first := Marker("bullet", 1) + s;
    LStripOfUnpadded(first);
    assert first[..2] == "• ";
  }

  /** `"1. "` in front of anything passes the number test: `int("1")` is 1. */
  lemma NumberMarkerIsList(s: string)
    ensures IsList(LStrip(Marker("number", 1) + s), "number")
  {
    assert IntToStr(1) == "1";
    var first := Marker("number", 1) + s;
    assert first == "1" + ['.'] + (" " + s);
    LStripOfUnpadded(first);
    SplitAtFirst("1", '.', " " + s);
    ParseIntOfIntToStr(1);
    assert first[..3] == "1. ";
  }

  /** Toggling a block that is not a list twice leaves every line without
      its leading markers: the second toggle sees the list the first one
      made and takes its markers off again. */
  lemma ToggleListTwice(block: string, listType: string)
    requires listType == "bullet" || listType == "number"
    requires !IsList(LStrip(Split(block, "\n")[0]), listType)
    ensures var lines := Split(block, "\n");
      ToggledText(ToggledText(block, listType), listType) ==
        Join("\n", seq(|lines|, k requires 0 <= k < |lines| => LStripChars(lines[k], ListMarks)))
  {
    var lines := Split(block, "\n");
    var marked := Split(ToggledText(block, listType), "\n");
    ToggleListLines(block, listType);
    ToggleListMakesList(block, listType);
    assert BlockIsList(marked, listType);
    UnmarkLines(lines, marked, listType);
  }

  /** The second toggle on lines that carry their markers and pass the list
      test takes the markers off. */
  lemma UnmarkLines(lines: seq<string>, marked: seq<string>, listType: string)
    requires |marked| == |lines| >= 1
    requires forall k :: 0 <= k < |lines| ==> marked[k] == Marker(listType, k + 1) + LStripChars(lines[k], ListMarks)
    ensures ToggledLines(marked, true, listType) == seq(|lines|, k requires 0 <= k < |lines| => LStripChars(lines[k], ListMarks))
  {
    var twice := ToggledLines(marked, true, listType);
    var goal := seq(|lines|, k requires 0 <= k < |lines| => LStripChars(lines[k], ListMarks));
    forall k | 0 <= k < |lines| ensures twice[k] == goal[k] {
      UnmarkLine(marked, listType, k, lines[k]);
    }
  }

  lemma UnmarkLine(marked: seq<string>, listType: string, k: int, line: string)
    requires 0 <= k < |marked| && marked[k] == Marker(listType, k + 1) + LStripChars(line, ListMarks)
    ensures ToggledLines(marked, true, listType)[k] == LStripChars(line, ListMarks)
  {
    var m := Marker(listType, k + 1);
    var u := LStripChars(line, ListMarks);
    assert ToggledLines(marked, true, listType)[k] == LStripChars(m + u, ListMarks);
    UnmarkOnce(m, line, listType, k + 1);
  }

  /** The markers of line `i` are swallowed by the next toggle, which then
      finds nothing more to remove. */
  lemma UnmarkOnce(m: string, line: string, listType: string, i: nat)
    requires m == Marker(listType, i)
    ensures LStripChars(m + LStripChars(line, ListMarks), ListMarks) == LStripChars(line, ListMarks)
  {
    MarkerChars(listType, i);
    LStripCharsPrefix(m, LStripChars(line, ListMarks), ListMarks);
    LStripCharsAgain(line, ListMarks);
  }

  // ---------------------------------------------------------------------
  // change_indent

  /** The new indentation level: one more than the number of four-space
      runs in the whole block for `"increase"`, one less (but not below
      zero) for any other direction. */
  function IndentLevel(block: string, direction: string): nat {
    var current := Count(block, "    ");
    if direction == "increase" then current + 1
    else if current > 0 then current - 1 else 0
  }

  function IndentedLines(lines: seq<string>, level: nat): seq<string> {
    seq(|lines|, k requires 0 <= k < |lines| => Repeat("    ", level) + LStrip(lines[k]))
  }

  /** The text `change_indent` puts back in place of the block. */
  function IndentedText(block: string, direction: string): string {
    Join("\n", IndentedLines(Split(block, "\n"), IndentLevel(block, direction)))
  }

  /** The loop of `change_indent`. */
  method ChangeIndent(block: string, direction: string) returns (text: string)
    ensures text == IndentedText(block, direction)
  {
    var currentIndent := Count(block, "    ");
    var newIndent := 0;
    if direction == "increase" {
      newIndent := currentIndent + 1;
    } else if currentIndent > 0 {
      newIndent := currentIndent - 1;
    }
    var lines := Split(block, "\n");
    var indentedLines: seq<string> := [];
    var i := 0;
    while i < |lines|
      invariant 0 <= i <= |lines|
      invariant indentedLines == IndentedLines(lines, newIndent)[..i]
    {
      var strippedLine := LStrip(lines[i]);
      indentedLines := indentedLines + [Repeat("    ", newIndent) + strippedLine];
      i := i + 1;
    }
    assert indentedLines == IndentedLines(lines, newIndent);
    text := Join("\n", indentedLines);
  }

  /** Four-space units are all spaces. */
  lemma {:induction false} RepeatSpaces(n: nat)
    ensures forall j :: 0 <= j < |Repeat("    ", n)| ==> Repeat("    ", n)[j] == ' '
  {
    if n > 0 {
      RepeatSpaces(n - 1);
      var r := Repeat("    ", n);
      assert r == "    " + Repeat("    ", n - 1);
      forall j | 4 <= j < |r| ensures r[j] == ' ' {
        assert r[j] == Repeat("    ", n - 1)[j - 4];
      }
    }
  }

  /** The output, split at newlines again, has one line per line of the
      block: line `k` is `4 * level` spaces followed by line `k` without its
      leading whitespace, so it keeps its text and its indentation is now
      exactly four spaces per level. */
  lemma ChangeIndentLines(block: string, direction: string)
    ensures var lines := Split(block, "\n");
      var level := IndentLevel(block, direction);
      var out := Split(IndentedText(block, direction), "\n");
      && |out| == |lines|
      && forall k :: 0 <= k < |lines| ==>
           && out[k] == Repeat("    ", level) + LStrip(lines[k])
           && LStrip(out[k]) == LStrip(lines[k])
           && |out[k]| == 4 * level + |LStrip(lines[k])|
           && forall j :: 0 <= j < 4 * level ==> out[k][j] == ' '
  {
    var lines := Split(block, "\n");
    var level := IndentLevel(block, direction);
    var ils := IndentedLines(lines, level);
    var pad := Repeat("    ", level);
    SplitPiecesFree(block, '\n');
    RepeatSpaces(level);
    forall k | 0 <= k < |ils|
      ensures '\n' !in ils[k]
      ensures LStrip(ils[k]) == LStrip(lines[k])
      ensures forall j :: 0 <= j < 4 * level ==> ils[k][j] == ' '
    {
      var s := LStrip(lines[k]);
      LStripShape(lines[k]);
      NotInSuffix(lines[k], |lines[k]| - |s|, '\n');
      assert ils[k] == pad + s;
      assert ils[k][..4 * level] == pad;
      LStripPaddedLeft(pad, s);
      LStripAgain(lines[k]);
    }
    SplitJoin(ils, '\n');
  }

  /** Left-stripping twice removes nothing more. */
  lemma LStripAgain(s: string)
    ensures LStrip(LStrip(s)) == LStrip(s)
  {
    LStripShape(s);
    LStripOfUnpadded(LStrip(s));
  }

  /** Every leading four-space unit is one run for `count`. */
  lemma {:induction false} CountRepeat(n: nat, t: string)
    ensures Count(Repeat("    ", n) + t, "    ") == n + Count(t, "    ")
  {
    if n > 0 {
      var s := Repeat("    ", n) + t;
      CountRepeat(n - 1, t);
      assert s == "    " + (Repeat("    ", n - 1) + t);
      assert s[..4] == "    ";
      assert s[4..] == Repeat("    ", n - 1) + t;
    } else {
      assert Repeat("    ", n) + t == t;
    }
  }

  /** On one line indented by `m` levels whose text holds no four-space run,
      `"increase"` gives it `m + 1` levels and anything else `m - 1` (not
      below zero), so decreasing after increasing gives the line back. */
  lemma ChangeIndentLine(m: nat, t: string)
    requires '\n' !in t && LStrip(t) == t && Count(t, "    ") == 0
    ensures IndentedText(Repeat("    ", m) + t, "increase") == Repeat("    ", m + 1) + t
    ensures IndentedText(Repeat("    ", m) + t, "decrease") == Repeat("    ", if m > 0 then m - 1 else 0) + t
    ensures IndentedText(IndentedText(Repeat("    ", m) + t, "increase"), "decrease") == Repeat("    ", m) + t
  {
    IndentedOneLine(m, t, "increase");
    IndentedOneLine(m, t, "decrease");
    IndentedOneLine(m + 1, t, "decrease");
  }

  lemma IndentedOneLine(n: nat, t: string, direction: string)
    requires '\n' !in t && LStrip(t) == t && Count(t, "    ") == 0
    ensures IndentedText(Repeat("    ", n) + t, direction) ==
      Repeat("    ", if direction == "increase" then n + 1 else if n > 0 then n - 1 else 0) + t
  {
    var line := Repeat("    ", n) + t;
    RepeatSpaces(n);
    CountRepeat(n, t);
    LStripPaddedLeft(Repeat("    ", n), t);
    assert '\n' !in line by {
      forall j | 0 <= j < |line| ensures line[j] != '\n' {
        if j >= |Repeat("    ", n)| {
          assert line[j] == t[j - |Repeat("    ", n)|];
        }
      }
    }
    SplitWithout(line, '\n');
    var level := IndentLevel(line, direction);
    assert IndentedLines([line], level) == [Repeat("    ", level) + t];
  }
}
