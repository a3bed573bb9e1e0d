/** The OCR clean-up that drops running headers and footers: a line is a
    header or footer when, trimmed, it is just the page number or shorter
    than five characters; the cleaned page text is the remaining non-blank
    lines, in order, joined by single spaces. The OCR call itself is not
    part of the model: the raw text is an input. */
module HeaderFooter {
  import opened PyText

  /** `re.match(rf"^\s*{page}\s*$", line)`: leading whitespace, the decimal
      page number, trailing whitespace and nothing else. Since `str(page)`
      starts with a digit or `-`, the leading `\s*` takes exactly the
      leading whitespace. */
  predicate MatchesPageNumber(line: string, page: int) {
    var d := IntToStr(page);
    var r := LStrip(line);
    |r| >= |d| && r[..|d|] == d && AllSpace(r[|d|..])
  }

  /** `is_header_or_footer(line, page_number)`. */
  predicate IsHeaderOrFooter(line: string, page: int) {
    MatchesPageNumber(line, page) || |Strip(line)| < 5
  }

  /** The test on each line of the filter loop:
      `line.strip() and not is_header_or_footer(line, page_number)`. */
  predicate Keep(line: string, page: int) {
    Strip(line) != [] && !IsHeaderOrFooter(line, page)
  }

  /** The regular expression matches exactly when the trimmed line is the
      page number. */
  lemma MatchesPageNumberIff(line: string, page: int)
    ensures MatchesPageNumber(line, page) <==> Strip(line) == IntToStr(page)
  {
    if MatchesPageNumber(line, page) {
      MatchedLineStrips(line, page);
    }
    if Strip(line) == IntToStr(page) {
      StrippedLineMatches(line, page);
    }
  }

  lemma MatchedLineStrips(line: string, page: int)
    requires MatchesPageNumber(line, page)
    ensures Strip(line) == IntToStr(page)
  {
    var d := IntToStr(page);
    IntToStrChars(page);
    var r := LStrip(line);
    LStripShape(line);
    var w := line[..|line| - |r|];
    assert line == w + r;
    var b := r[|d|..];
    assert r == d + b;
    assert line == w + d + b;
    StripIsCore(w, d, b);
  }

  lemma StrippedLineMatches(line: string, page: int)
    requires Strip(line) == IntToStr(page)
    ensures MatchesPageNumber(line, page)
  {
    var d := IntToStr(page);
    var r := LStrip(line);
    RStripShape(r);
    assert RStrip(r) == d;
    assert r == d + r[|d|..];
  }

  /** `is_header_or_footer` in the words of its contract: the trimmed line is
      the page number, or has fewer than five characters. */
  lemma IsHeaderOrFooterIff(line: string, page: int)
    ensures IsHeaderOrFooter(line, page) <==> Strip(line) == IntToStr(page) || |Strip(line)| < 5
  {
    MatchesPageNumberIff(line, page);
  }

  lemma {:induction false} NatToStrShort(n: nat)
    requires n < 10000
    ensures n < 10 ==> |NatToStr(n)| == 1
    ensures n < 100 ==> |NatToStr(n)| <= 2
    ensures n < 1000 ==> |NatToStr(n)| <= 3
    ensures |NatToStr(n)| <= 4
  {
    if n >= 10 { NatToStrShort(n / 10); }
  }

  /** For every page below 10000 the page-number test never decides
      anything: `str(page)` is shorter than five characters, so a line that
      is the page number is already dropped by the length test. */
  lemma PageNumberTestSubsumed(line: string, page: int)
    requires 0 <= page < 10000
    ensures IsHeaderOrFooter(line, page) <==> |Strip(line)| < 5
  {
    IsHeaderOrFooterIff(line, page);
    NatToStrShort(page);
  }

  /** The `line.strip()` test of the loop is implied by the header test:
      a blank line has trimmed length 0. */
  lemma KeepIff(line: string, page: int)
    ensures Keep(line, page) <==> !IsHeaderOrFooter(line, page)
    ensures Keep(line, page) ==> |Strip(line)| >= 5
  {
  }

  /** The lines a test keeps, in order. */
  function Filter(lines: seq<string>, keep: string -> bool): seq<string> {
    if lines == [] then []
    else
      var last := lines[|lines| - 1];
      Filter(lines[..|lines| - 1], keep) + (if keep(last) then [last] else [])
  }

  /** The test of the filter loop on page `page`. */
  function KeepTest(page: int): string -> bool {
    line => Keep(line, page)
  }

  /** The lines the loop appends to `cleaned_lines`, in order. */
  function Kept(lines: seq<string>, page: int): seq<string> {
    Filter(lines, KeepTest(page))
  }

  lemma {:induction false} FilterMembers(lines: seq<string>, keep: string -> bool)
    ensures forall x :: x in Filter(lines, keep) <==> x in lines && keep(x)
  {
    if lines != [] {
      var init := lines[..|lines| - 1];
      FilterMembers(init, keep);
      assert lines == init + [lines[|lines| - 1]];
    }
  }

  lemma FilterSnoc(xs: seq<string>, x: string, keep: string -> bool)
    ensures Filter(xs + [x], keep) == Filter(xs, keep) + (if keep(x) then [x] else [])
  {
    assert (xs + [x])[..|xs|] == xs;
  }

  lemma {:induction false} FilterAppend(a: seq<string>, b: seq<string>, keep: string -> bool)
    ensures Filter(a + b, keep) == Filter(a, keep) + Filter(b, keep)
    decreases |b|
  {
    if b == [] {
      assert a + b == a;
    } else {
      var bi := b[..|b| - 1];
      var x := b[|b| - 1];
      var ab := a + b;
      FilterAppend(a, bi, keep);
      assert ab[..|ab| - 1] == a + bi;
      assert ab[|ab| - 1] == x;
      var t := if keep(x) then [x] else [];
      assert Filter(ab, keep) == Filter(a + bi, keep) + t;
      assert Filter(b, keep) == Filter(bi, keep) + t;
      assert Filter(a, keep) + Filter(bi, keep) + t == Filter(a, keep) + (Filter(bi, keep) + t);
    }
  }

  lemma {:induction false} FilterIdempotent(lines: seq<string>, keep: string -> bool)
    ensures Filter(Filter(lines, keep), keep) == Filter(lines, keep)
  {
    if lines != [] {
      var init := lines[..|lines| - 1];
      var last := lines[|lines| - 1];
      FilterIdempotent(init, keep);
      var tail := if keep(last) then [last] else [];
      FilterAppend(Filter(init, keep), tail, keep);
      if keep(last) {
        FilterSnoc([], last, keep);
        assert [] + [last] == [last];
      }
    }
  }

  /** A line is kept exactly when it is one of the input lines and it is
      neither blank nor a header or footer. */
  lemma KeptMembers(lines: seq<string>, page: int)
    ensures forall x :: x in Kept(lines, page) <==> x in lines && Keep(x, page)
  {
    FilterMembers(lines, KeepTest(page));
  }

  /** The filter keeps the original order: it distributes over
      concatenation, so whatever precedes a line in the input precedes it in
      the output. */
  lemma KeptAppend(a: seq<string>, b: seq<string>, page: int)
    ensures Kept(a + b, page) == Kept(a, page) + Kept(b, page)
  {
    FilterAppend(a, b, KeepTest(page));
  }

  /** Filtering twice removes nothing more. */
  lemma KeptIdempotent(lines: seq<string>, page: int)
    ensures Kept(Kept(lines, page), page) == Kept(lines, page)
  {
    FilterIdempotent(lines, KeepTest(page));
  }

  /** The filter loop of `ocr_tamil_cleaned`: split the raw OCR text into
      lines, keep the non-blank lines that are not headers or footers, and
      join them with single spaces. */
  method CleanPageText(rawText: string, page: int) returns (cleaned: string)
    ensures cleaned == Join(" ", Kept(SplitLines(rawText), page))
  {
    var lines := SplitLines(rawText);
    var cleanedLines := KeepLines(lines, page);
    cleaned := Join(" ", cleanedLines);
  }

  /** The loop over the lines. */
  method KeepLines(lines: seq<string>, page: int) returns (cleanedLines: seq<string>)
    ensures cleanedLines == Kept(lines, page)
  {
    cleanedLines := [];
    var i := 0;
    while i < |lines|
      invariant 0 <= i <= |lines|
      invariant cleanedLines == Kept(lines[..i], page)
    {
      var line := lines[i];
      KeptStep(lines, i, page);
      if Strip(line) != [] && !IsHeaderOrFooter(line, page) {
        cleanedLines := cleanedLines + [line];
      }
      i := i + 1;
    }
    assert lines[..|lines|] == lines;
  }

  lemma KeptStep(lines: seq<string>, i: nat, page: int)
    requires i < |lines|
    ensures Kept(lines[..i + 1], page) == Kept(lines[..i], page) + (if Keep(lines[i], page) then [lines[i]] else [])
  {
    assert lines[..i + 1] == lines[..i] + [lines[i]];
    FilterSnoc(lines[..i], lines[i], KeepTest(page));
  }
}
