/** The page-range fields of the three OCR front ends. A field such as
    `"1-3, 5, 7-9"` is cut at commas; a part holding `-` is a range
    `start-end`, any other part a single page.

    - `validate_and_process` in new.py gives sorted, duplicate-free 0-based
      page indices, or `None` (every page) for an empty field or `"all"`; it
      checks no bounds.
    - `start_ocr` in editor.py and `start_processing` in gui.py strip each
      part, check every page against the page count, and collect a set of
      1-based page numbers; they differ only in what an empty field means.

    Every failure is a `ValueError` in the source; `PageError` records which
    one was raised first. */
module PageRanges {
  import opened Outcomes
  import opened PyText

  datatype PageError =
    | NotAnInteger(piece: string)   // `int()` refused this piece
    | TooManyValues                 // `start, end = ...` got a third value
    | InvalidRange(part: string)    // the range test of the loop failed
    | InvalidPage(page: int)        // a single page outside the document

  // ---------------------------------------------------------------------
  // Shared pieces

  /** `start, end = map(int, part.split('-'))`. The map is lazy and the
      unpacking asks for a third value before it complains, so with three or
      more pieces the third piece is still converted (and may be the one
      that fails). */
  function ParseBounds(part: string): (r: Result<(int, int), PageError>)
    requires '-' in part
    ensures r.Ok? <==>
      |Split(part, "-")| == 2 && ParseInt(Split(part, "-")[0]).Some? && ParseInt(Split(part, "-")[1]).Some?
    ensures r.Ok? ==> r.value == (ParseInt(Split(part, "-")[0]).value, ParseInt(Split(part, "-")[1]).value)
  {
    SplitPiecesFree(part, '-');
    var pieces := Split(part, "-");
    match ParseInt(pieces[0])
    case None => Err(NotAnInteger(pieces[0]))
    case Some(start) =>
      match ParseInt(pieces[1])
      case None => Err(NotAnInteger(pieces[1]))
      case Some(end) =>
        if |pieces| == 2 then Ok((start, end))
        else if ParseInt(pieces[2]).None? then Err(NotAnInteger(pieces[2]))
        else Err(TooManyValues)
  }

  /** `list(range(lo, hi))`. */
  function IntRange(lo: int, hi: int): (r: seq<int>)
    ensures |r| == if lo < hi then hi - lo else 0
    ensures forall k :: 0 <= k < |r| ==> r[k] == lo + k
    decreases hi - lo
  {
    if lo >= hi then [] else [lo] + IntRange(lo + 1, hi)
  }

  lemma IntRangeMembers(lo: int, hi: int)
    ensures forall x :: x in IntRange(lo, hi) <==> lo <= x < hi
  {
    var r := IntRange(lo, hi);
    forall x | lo <= x < hi ensures x in r {
      assert r[x - lo] == x;
    }
  }

  /** `set(range(lo, hi + 1))`. */
  function PageSpan(lo: int, hi: int): (r: set<int>)
    ensures forall x :: x in r <==> lo <= x <= hi
    decreases hi - lo
  {
    if lo > hi then {} else {lo} + PageSpan(lo + 1, hi)
  }

  predicate Increasing(xs: seq<int>) {
    forall i, j :: 0 <= i < j < |xs| ==> xs[i] < xs[j]
  }

  /** Puts `x` into a strictly increasing list, unless it is already there. */
  function Insert(x: int, xs: seq<int>): (r: seq<int>)
    requires Increasing(xs)
    ensures Increasing(r)
    ensures forall y :: y in r <==> y == x || y in xs
  {
    if xs == [] then [x]
    else if x < xs[0] then
      forall y | y in xs ensures x < y {
        IncreasingMin(xs, y);
      }
      IncreasingCons(x, xs);
      [x] + xs
    else if x == xs[0] then xs
    else
      var rest := Insert(x, xs[1..]);
      forall y | y in rest ensures xs[0] < y {
        InIncreasingTail(xs, y);
      }
      IncreasingCons(xs[0], rest);
      [xs[0]] + rest
  }

  /** The head of a strictly increasing list is its least element. */
  lemma IncreasingMin(a: seq<int>, y: int)
    requires Increasing(a) && y in a
    ensures a[0] <= y
  {
    var i :| 0 <= i < |a| && a[i] == y;
    if i > 0 {
      assert a[0] < a[i];
    }
  }

  /** The tail of a strictly increasing list holds everything but its head. */
  lemma InIncreasingTail(a: seq<int>, y: int)
    requires Increasing(a) && a != []
    ensures y in a[1..] <==> y in a && y != a[0]
  {
    if y in a[1..] {
      var i :| 0 <= i < |a| - 1 && a[1..][i] == y;
      assert a[i + 1] == y;
      assert a[0] < a[i + 1];
    }
    if y in a && y != a[0] {
      var i :| 0 <= i < |a| && a[i] == y;
      assert a[1..][i - 1] == y;
    }
  }

  lemma IncreasingCons(x: int, r: seq<int>)
    requires Increasing(r) && forall y :: y in r ==> x < y
    ensures Increasing([x] + r)
  {
    var s := [x] + r;
    forall i, j | 0 <= i < j < |s| ensures s[i] < s[j] {
      assert s[j] == r[j - 1];
      if i > 0 {
        assert s[i] == r[i - 1];
      } else {
        assert r[j - 1] in r;
      }
    }
  }

  /** `sorted(set(xs))`. */
  function SortedUnique(xs: seq<int>): (r: seq<int>)
    ensures Increasing(r)
    ensures forall y :: y in r <==> y in xs
  {
    if xs == [] then []
    else
      var r := Insert(xs[|xs| - 1], SortedUnique(xs[..|xs| - 1]));
      assert xs == xs[..|xs| - 1] + [xs[|xs| - 1]];
      r
  }

  /** A strictly increasing list is fixed by its elements: `Increasing` and
      the membership clause of `SortedUnique` describe one list only. */
  lemma {:induction false} IncreasingUnique(a: seq<int>, b: seq<int>)
    requires Increasing(a) && Increasing(b)
    requires forall y :: y in a <==> y in b
    ensures a == b
    decreases |a|
  {
    if a != [] {
      assert a[0] in a;
    }
    if b != [] {
      assert b[0] in b;
    }
    if a != [] && b != [] {
      IncreasingMin(a, b[0]);
      IncreasingMin(b, a[0]);
      forall y ensures y in a[1..] <==> y in b[1..] {
        InIncreasingTail(a, y);
        InIncreasingTail(b, y);
      }
      IncreasingUnique(a[1..], b[1..]);
      assert a == [a[0]] + a[1..] && b == [b[0]] + b[1..];
    }
  }

  // ---------------------------------------------------------------------
  // new.py: 0-based indices

  /** What one part adds to `page_ranges`: `range(start - 1, end)` for a
      range, `int(part) - 1` for a single page. The part is not stripped;
      `int()` itself ignores surrounding whitespace. */
  function ZeroBasedPart(part: string): Result<seq<int>, PageError> {
    if '-' in part then
      match ParseBounds(part)
      case Err(e) => Err(e)
      case Ok((start, end)) =>
        if start > end then Err(InvalidRange(part)) else Ok(IntRange(start - 1, end))
    else
      match ParseInt(part)
      case None => Err(NotAnInteger(part))
      case Some(n) => Ok([n - 1])
  }

  /** The outcome of every part, in order. */
  function ZeroBasedResults(parts: seq<string>): (rs: seq<Result<seq<int>, PageError>>)
    ensures |rs| == |parts|
    ensures forall k :: 0 <= k < |parts| ==> rs[k] == ZeroBasedPart(parts[k])
  {
    seq(|parts|, k requires 0 <= k < |parts| => ZeroBasedPart(parts[k]))
  }

  /** `page_ranges` once the loop has gone through these outcomes: the
      indices of every part appended in order, or the first error. */
  function CollectIndices(rs: seq<Result<seq<int>, PageError>>): Result<seq<int>, PageError> {
    if rs == [] then Ok([])
    else
      match CollectIndices(rs[..|rs| - 1])
      case Err(e) => Err(e)
      case Ok(xs) =>
        match rs[|rs| - 1]
        case Err(e) => Err(e)
        case Ok(ys) => Ok(xs + ys)
  }

  /** The comma-separated parts of the trimmed field. */
  function FieldParts(rangeText: string): seq<string> {
    Split(Strip(rangeText), ",")
  }

  /** The whole field: `None` for every page, or the sorted indices. */
  function ZeroBasedPages(rangeText: string): Result<Option<seq<int>>, PageError> {
    var t := Strip(rangeText);
    if t == [] || AsciiLower(t) == "all" then Ok(None)
    else
      match CollectIndices(ZeroBasedResults(FieldParts(rangeText)))
      case Err(e) => Err(e)
      case Ok(xs) => Ok(Some(SortedUnique(xs)))
  }

  lemma CollectIndicesSnoc(rs: seq<Result<seq<int>, PageError>>, r: Result<seq<int>, PageError>)
    ensures CollectIndices(rs + [r]) ==
      match CollectIndices(rs)
      case Err(e) => Err(e)
      case Ok(xs) =>
        match r
        case Err(e) => Err(e)
        case Ok(ys) => Ok(xs + ys)
  {
    assert (rs + [r])[..|rs|] == rs;
  }

  /** Once a part has failed, the later parts change nothing. */
  lemma {:induction false} CollectIndicesErrorStays(rs: seq<Result<seq<int>, PageError>>, i: nat, e: PageError)
    requires i <= |rs| && CollectIndices(rs[..i]) == Err(e)
    ensures CollectIndices(rs) == Err(e)
    decreases |rs|
  {
    if i < |rs| {
      var init := rs[..|rs| - 1];
      assert init[..i] == rs[..i];
      CollectIndicesErrorStays(init, i, e);
    } else {
      assert rs[..i] == rs;
    }
  }

  /** The collection succeeds exactly when every part does, and then holds
      exactly the parts' indices; otherwise its error is that of the first
      failing part. */
  lemma {:induction false} CollectIndicesMeaning(rs: seq<Result<seq<int>, PageError>>)
    ensures CollectIndices(rs).Ok? <==> forall k :: 0 <= k < |rs| ==> rs[k].Ok?
    ensures CollectIndices(rs).Ok? ==> forall x :: x in CollectIndices(rs).value <==>
      exists k :: 0 <= k < |rs| && rs[k].Ok? && x in rs[k].value
    ensures CollectIndices(rs).Err? ==>
      exists k :: 0 <= k < |rs| && rs[k] == Err(CollectIndices(rs).error) && forall j :: 0 <= j < k ==> rs[j].Ok?
  {
    if rs != [] {
      var init := rs[..|rs| - 1];
      var last := rs[|rs| - 1];
      CollectIndicesMeaning(init);
      assert forall k :: 0 <= k < |init| ==> rs[k] == init[k];
      if CollectIndices(rs).Ok? {
        forall x ensures x in CollectIndices(rs).value <==> exists k :: 0 <= k < |rs| && rs[k].Ok? && x in rs[k].value {
          if exists k :: 0 <= k < |rs| && rs[k].Ok? && x in rs[k].value {
            var k :| 0 <= k < |rs| && rs[k].Ok? && x in rs[k].value;
            if k < |init| {
              assert init[k].Ok? && x in init[k].value;
            }
          }
        }
      } else if CollectIndices(init).Err? {
        var k :| 0 <= k < |init| && init[k] == Err(CollectIndices(init).error) && forall j :: 0 <= j < k ==> init[j].Ok?;
        assert rs[k] == init[k];
      } else {
        assert rs[|rs| - 1] == Err(CollectIndices(rs).error);
      }
    }
  }

  /** The body of the loop of `validate_and_process` for one part: what it
      adds to `page_ranges`, or the `ValueError` it raises. */
  method ZeroBasedStep(part: string) returns (r: Result<seq<int>, PageError>)
    ensures r == ZeroBasedPart(part)
  {
    if '-' in part {
      var bounds := ParseBounds(part);
      if bounds.Err? {
        return Err(bounds.error);
      }
      var (start, end) := bounds.value;
      if start > end {
        return Err(InvalidRange(part));
      }
      return Ok(IntRange(start - 1, end));
    }
    var n := ParseInt(part);
    if n.None? {
      return Err(NotAnInteger(part));
    }
    return Ok([n.value - 1]);
  }

  /** `validate_and_process`, returning what the dialog hands on to
      `process_ocr_files`, or the error it shows instead. */
  method ParseZeroBasedPages(rangeText: string) returns (r: Result<Option<seq<int>>, PageError>)
    ensures r == ZeroBasedPages(rangeText)
  {
    var text := Strip(rangeText);
    if text == [] || AsciiLower(text) == "all" {
      return Ok(None);
    }
    var parts := FieldParts(rangeText);
    var collected := CollectZeroBased(parts);
    match collected {
      case Err(e) => r := Err(e);
      case Ok(pageRanges) => r := Ok(Some(SortedUnique(pageRanges)));
    }
  }

  /** One turn of the loop of `validate_and_process`. */
  lemma CollectIndicesStep(rs: seq<Result<seq<int>, PageError>>, i: nat, indices: seq<int>)
    requires i < |rs| && CollectIndices(rs[..i]) == Ok(indices)
    ensures rs[i].Err? ==> CollectIndices(rs) == Err(rs[i].error)
    ensures rs[i].Ok? ==> CollectIndices(rs[..i + 1]) == Ok(indices + rs[i].value)
  {
    assert rs[..i + 1] == rs[..i] + [rs[i]];
    CollectIndicesSnoc(rs[..i], rs[i]);
    if rs[i].Err? {
      CollectIndicesErrorStays(rs, i + 1, rs[i].error);
    }
  }

  /** The loop of `validate_and_process` over the parts. */
  method CollectZeroBased(parts: seq<string>) returns (r: Result<seq<int>, PageError>)
    ensures r == CollectIndices(ZeroBasedResults(parts))
  {
    ghost var results := ZeroBasedResults(parts);
    var pageRanges: seq<int> := [];
    var i := 0;
    while i < |parts|
      invariant 0 <= i <= |parts|
      invariant CollectIndices(results[..i]) == Ok(pageRanges)
    {
      var step := ZeroBasedStep(parts[i]);
      CollectIndicesStep(results, i, pageRanges);
      if step.Err? {
        return Err(step.error);
      }
      pageRanges := pageRanges + step.value;
      i := i + 1;
    }
    assert results[..|parts|] == results;
    return Ok(pageRanges);
  }

  /** A range part `a-b` is refused exactly when `a > b`, and otherwise
      stands for the indices `a-1 .. b-1`. */
  lemma ZeroBasedRangePart(part: string)
    requires '-' in part && ParseBounds(part).Ok?
    ensures var (a, b) := ParseBounds(part).value;
      && (ZeroBasedPart(part).Err? <==> a > b)
      && (a <= b ==> forall x :: x in ZeroBasedPart(part).value <==> a - 1 <= x <= b - 1)
  {
    var (a, b) := ParseBounds(part).value;
    IntRangeMembers(a - 1, b);
  }

  /** Every accepted part contributes at least one index. */
  lemma ZeroBasedPartNonEmpty(part: string)
    requires ZeroBasedPart(part).Ok?
    ensures ZeroBasedPart(part).value != []
  {
    if '-' in part {
      ZeroBasedRangePart(part);
    }
  }

  /** The dialog answers `None` exactly for an empty field or `"all"` in any
      letter case. Any other accepted field gives a non-empty, strictly
      increasing list holding the indices of the parts and nothing else. */
  lemma ZeroBasedPagesAccepted(rangeText: string)
    ensures var t := Strip(rangeText);
      ZeroBasedPages(rangeText) == Ok(None) <==> t == [] || AsciiLower(t) == "all"
    ensures ZeroBasedPages(rangeText).Ok? && ZeroBasedPages(rangeText).value.Some? ==>
      var parts := FieldParts(rangeText);
      var pages := ZeroBasedPages(rangeText).value.value;
      && Increasing(pages)
      && |pages| > 0
      && forall x :: x in pages <==>
        exists k :: 0 <= k < |parts| && ZeroBasedPart(parts[k]).Ok? && x in ZeroBasedPart(parts[k]).value
  {
    var t := Strip(rangeText);
    if !(t == [] || AsciiLower(t) == "all") {
      var parts := FieldParts(rangeText);
      var rs := ZeroBasedResults(parts);
      CollectIndicesMeaning(rs);
      if CollectIndices(rs).Ok? {
        ZeroBasedPartNonEmpty(parts[0]);
        var x := rs[0].value[0];
        assert x in CollectIndices(rs).value;
      }
    }
  }

  /** A field other than empty or `"all"` is refused exactly when one of
      its parts is, and the error shown is that of the first part that
      fails. */
  lemma ZeroBasedPagesRejected(rangeText: string)
    requires Strip(rangeText) != [] && AsciiLower(Strip(rangeText)) != "all"
    ensures ZeroBasedPages(rangeText).Err? <==>
      exists k :: 0 <= k < |FieldParts(rangeText)| && ZeroBasedPart(FieldParts(rangeText)[k]).Err?
    ensures ZeroBasedPages(rangeText).Err? ==>
      exists k :: 0 <= k < |FieldParts(rangeText)| && ZeroBasedPart(FieldParts(rangeText)[k]) == Err(ZeroBasedPages(rangeText).error)
        && forall j :: 0 <= j < k ==> ZeroBasedPart(FieldParts(rangeText)[j]).Ok?
  {
    var parts := FieldParts(rangeText);
    CollectFailure(parts, ZeroBasedResults(parts), ZeroBasedPages(rangeText));
  }

  lemma CollectFailure(parts: seq<string>, rs: seq<Result<seq<int>, PageError>>, r: Result<Option<seq<int>>, PageError>)
    requires rs == ZeroBasedResults(parts)
    requires r == match CollectIndices(rs)
      case Err(e) => Err(e)
      case Ok(xs) => Ok(Some(SortedUnique(xs)))
    ensures r.Err? <==> exists k :: 0 <= k < |parts| && ZeroBasedPart(parts[k]).Err?
    ensures r.Err? ==>
      exists k :: 0 <= k < |parts| && ZeroBasedPart(parts[k]) == Err(r.error)
        && forall j :: 0 <= j < k ==> ZeroBasedPart(parts[j]).Ok?
  {
    CollectIndicesMeaning(rs);
    if CollectIndices(rs).Err? {
      var k :| 0 <= k < |rs| && rs[k] == Err(CollectIndices(rs).error) && forall j :: 0 <= j < k ==> rs[j].Ok?;
      assert ZeroBasedPart(parts[k]) == rs[k];
    } else {
      forall k | 0 <= k < |parts| ensures !ZeroBasedPart(parts[k]).Err? {
        assert rs[k].Ok?;
      }
    }
  }

  /** No lower bound is checked: page `0` becomes index `-1`. */
  lemma ZeroBasedPageZero()
    ensures ZeroBasedPages("0") == Ok(Some([-1]))
  {
    StripOfUnpadded("0");
    SplitWithout("0", ',');
    ParseIntOfIntToStr(0);
    assert ZeroBasedPart("0") == Ok([-1]);
    assert ZeroBasedResults(["0"]) == [Ok([-1])];
    CollectIndicesSnoc([], Ok([-1]));
    assert SortedUnique([-1]) == [-1] by {
      assert [-1][..0] == [];
    }
  }

  // ---------------------------------------------------------------------
  // editor.py and gui.py: checked 1-based pages

  /** One stripped part of the checked loop: `range(start, end + 1)` when
      `1 <= start <= end <= total`, the single page when it lies in
      `1 .. total`; anything else is refused. */
  function CheckedPart(part: string, total: int): Result<set<int>, PageError> {
    var p := Strip(part);
    if '-' in p then
      match ParseBounds(p)
      case Err(e) => Err(e)
      case Ok((start, end)) =>
        if start < 1 || end > total || start > end then Err(InvalidRange(p))
        else Ok(PageSpan(start, end))
    else
      match ParseInt(p)
      case None => Err(NotAnInteger(p))
      case Some(n) =>
        if n < 1 || n > total then Err(InvalidPage(n)) else Ok({n})
  }

  function CheckedResults(parts: seq<string>, total: int): (rs: seq<Result<set<int>, PageError>>)
    ensures |rs| == |parts|
    ensures forall k :: 0 <= k < |parts| ==> rs[k] == CheckedPart(parts[k], total)
  {
    seq(|parts|, k requires 0 <= k < |parts| => CheckedPart(parts[k], total))
  }

  /** `pages_to_process` once the loop has gone through these outcomes: the
      union of the parts' pages, or the first error. */
  function CollectPages(rs: seq<Result<set<int>, PageError>>): Result<set<int>, PageError> {
    if rs == [] then Ok({})
    else
      match CollectPages(rs[..|rs| - 1])
      case Err(e) => Err(e)
      case Ok(s) =>
        match rs[|rs| - 1]
        case Err(e) => Err(e)
        case Ok(t) => Ok(s + t)
  }

  /** The checked loop on a (stripped) field. */
  function CheckedPages(pageRange: string, total: int): Result<set<int>, PageError> {
    CollectPages(CheckedResults(Split(pageRange, ","), total))
  }

  lemma CollectPagesSnoc(rs: seq<Result<set<int>, PageError>>, r: Result<set<int>, PageError>)
    ensures CollectPages(rs + [r]) ==
      match CollectPages(rs)
      case Err(e) => Err(e)
      case Ok(s) =>
        match r
        case Err(e) => Err(e)
        case Ok(t) => Ok(s + t)
  {
    assert (rs + [r])[..|rs|] == rs;
  }

  lemma {:induction false} CollectPagesErrorStays(rs: seq<Result<set<int>, PageError>>, i: nat, e: PageError)
    requires i <= |rs| && CollectPages(rs[..i]) == Err(e)
    ensures CollectPages(rs) == Err(e)
    decreases |rs|
  {
    if i < |rs| {
      var init := rs[..|rs| - 1];
      assert init[..i] == rs[..i];
      CollectPagesErrorStays(init, i, e);
    } else {
      assert rs[..i] == rs;
    }
  }

  lemma {:induction false} CollectPagesMeaning(rs: seq<Result<set<int>, PageError>>)
    ensures CollectPages(rs).Ok? <==> forall k :: 0 <= k < |rs| ==> rs[k].Ok?
    ensures CollectPages(rs).Ok? ==> forall x :: x in CollectPages(rs).value <==>
      exists k :: 0 <= k < |rs| && rs[k].Ok? && x in rs[k].value
    ensures CollectPages(rs).Err? ==>
      exists k :: 0 <= k < |rs| && rs[k] == Err(CollectPages(rs).error) && forall j :: 0 <= j < k ==> rs[j].Ok?
  {
    if rs != [] {
      var init := rs[..|rs| - 1];
      var last := rs[|rs| - 1];
      CollectPagesMeaning(init);
      assert forall k :: 0 <= k < |init| ==> rs[k] == init[k];
      if CollectPages(rs).Ok? {
        forall x ensures x in CollectPages(rs).value <==> exists k :: 0 <= k < |rs| && rs[k].Ok? && x in rs[k].value {
          if exists k :: 0 <= k < |rs| && rs[k].Ok? && x in rs[k].value {
            var k :| 0 <= k < |rs| && rs[k].Ok? && x in rs[k].value;
            if k < |init| {
              assert init[k].Ok? && x in init[k].value;
            }
          }
        }
      } else if CollectPages(init).Err? {
        var k :| 0 <= k < |init| && init[k] == Err(CollectPages(init).error) && forall j :: 0 <= j < k ==> init[j].Ok?;
        assert rs[k] == init[k];
      } else {
        assert rs[|rs| - 1] == Err(CollectPages(rs).error);
      }
    }
  }

  /** One turn of the checked loop: an error ends it with that error, and
      accepted pages are added. */
  lemma CollectPagesStep(rs: seq<Result<set<int>, PageError>>, i: nat, pages: set<int>)
    requires i < |rs| && CollectPages(rs[..i]) == Ok(pages)
    ensures rs[i].Err? ==> CollectPages(rs) == Err(rs[i].error)
    ensures rs[i].Ok? ==> CollectPages(rs[..i + 1]) == Ok(pages + rs[i].value)
  {
    assert rs[..i + 1] == rs[..i] + [rs[i]];
    CollectPagesSnoc(rs[..i], rs[i]);
    if rs[i].Err? {
      CollectPagesErrorStays(rs, i + 1, rs[i].error);
    }
  }

  /** The body of the checked loop for one part: the pages it adds to
      `pages_to_process`, or the `ValueError` it raises. */
  method CheckedStep(rawPart: string, total: int) returns (r: Result<set<int>, PageError>)
    ensures r == CheckedPart(rawPart, total)
  {
    var part := Strip(rawPart);
    if '-' in part {
      var bounds := ParseBounds(part);
      if bounds.Err? {
        return Err(bounds.error);
      }
      var (start, end) := bounds.value;
      if start < 1 || end > total || start > end {
        return Err(InvalidRange(part));
      }
      return Ok(PageSpan(start, end));
    }
    var pageNum := ParseInt(part);
    if pageNum.None? {
      return Err(NotAnInteger(part));
    }
    if pageNum.value < 1 || pageNum.value > total {
      return Err(InvalidPage(pageNum.value));
    }
    return Ok({pageNum.value});
  }

  /** The loop shared by `start_ocr` (editor.py) and `start_processing`
      (gui.py), on the already stripped field. */
  method CheckedPageSet(pageRange: string, total: int) returns (r: Result<set<int>, PageError>)
    ensures r == CheckedPages(pageRange, total)
  {
    var parts := Split(pageRange, ",");
    r := CollectChecked(parts, total);
  }

  /** The checked loop over the parts. */
  method CollectChecked(parts: seq<string>, total: int) returns (r: Result<set<int>, PageError>)
    ensures r == CollectPages(CheckedResults(parts, total))
  {
    ghost var results := CheckedResults(parts, total);
    var pagesToProcess: set<int> := {};
    var i := 0;
    while i < |parts|
      invariant 0 <= i <= |parts|
      invariant CollectPages(results[..i]) == Ok(pagesToProcess)
    {
      var step := CheckedStep(parts[i], total);
      CollectPagesStep(results, i, pagesToProcess);
      if step.Err? {
        return Err(step.error);
      }
      pagesToProcess := pagesToProcess + step.value;
      i := i + 1;
    }
    assert results[..|parts|] == results;
    return Ok(pagesToProcess);
  }

  /** An accepted checked part names at least one page, and only pages in
      `1 .. total`. */
  lemma CheckedPartInBounds(part: string, total: int)
    requires CheckedPart(part, total).Ok?
    ensures CheckedPart(part, total).value != {}
    ensures forall x :: x in CheckedPart(part, total).value ==> 1 <= x <= total
  {
    var p := Strip(part);
    if '-' in p {
      var (a, b) := ParseBounds(p).value;
      assert a in CheckedPart(part, total).value;
    }
  }

  /** A range part `a-b` is accepted exactly when `1 <= a <= b <= total`,
      and then stands for the pages `a .. b`. */
  lemma CheckedRangePart(part: string, total: int)
    requires '-' in Strip(part) && ParseBounds(Strip(part)).Ok?
    ensures var (a, b) := ParseBounds(Strip(part)).value;
      && (CheckedPart(part, total).Ok? <==> 1 <= a <= b <= total)
      && (CheckedPart(part, total).Ok? ==> forall x :: x in CheckedPart(part, total).value <==> a <= x <= b)
  {
  }

  /** A single page is accepted exactly when it lies in `1 .. total`. */
  lemma CheckedSinglePart(part: string, total: int)
    requires '-' !in Strip(part) && ParseInt(Strip(part)).Some?
    ensures var n := ParseInt(Strip(part)).value;
      && (CheckedPart(part, total).Ok? <==> 1 <= n <= total)
      && (CheckedPart(part, total).Ok? ==> CheckedPart(part, total).value == {n})
      && (CheckedPart(part, total).Err? ==> CheckedPart(part, total).error == InvalidPage(n))
  {
  }

  /** The checked loop on the parts of a field (`CheckedPages(f, total)` is
      this loop on `Split(f, ",")`) accepts exactly when it accepts every
      part; the set is then the union of the parts' pages, is not empty,
      and lies within `1 .. total`. A refusal carries the error of the first
      failing part. */
  lemma CheckedPartsMeaning(parts: seq<string>, total: int)
    requires |parts| >= 1
    ensures CollectPages(CheckedResults(parts, total)).Ok? <==> forall k :: 0 <= k < |parts| ==> CheckedPart(parts[k], total).Ok?
    ensures CollectPages(CheckedResults(parts, total)).Ok? ==>
      var s := CollectPages(CheckedResults(parts, total)).value;
      && s != {}
      && (forall x :: x in s ==> 1 <= x <= total)
      && forall x :: x in s <==>
        exists k :: 0 <= k < |parts| && CheckedPart(parts[k], total).Ok? && x in CheckedPart(parts[k], total).value
    ensures CollectPages(CheckedResults(parts, total)).Err? ==>
      exists k :: 0 <= k < |parts|
        && CheckedPart(parts[k], total) == Err(CollectPages(CheckedResults(parts, total)).error)
        && forall j :: 0 <= j < k ==> CheckedPart(parts[j], total).Ok?
  {
    var rs := CheckedResults(parts, total);
    CollectPagesMeaning(rs);
    forall k | 0 <= k < |rs| ensures rs[k].Ok? ==> rs[k].value != {} && forall x :: x in rs[k].value ==> 1 <= x <= total {
      CheckedResultInBounds(parts, total, k);
    }
    CollectPagesBounded(rs, total);
  }

  lemma CheckedResultInBounds(parts: seq<string>, total: int, k: int)
    requires 0 <= k < |parts|
    ensures var r := CheckedResults(parts, total)[k];
      r.Ok? ==> r.value != {} && forall x :: x in r.value ==> 1 <= x <= total
  {
    if CheckedPart(parts[k], total).Ok? {
      CheckedPartInBounds(parts[k], total);
    }
  }

  /** The union of non-empty sets within `1 .. total` is non-empty (when
      there is a part) and within `1 .. total`. */
  lemma CollectPagesBounded(rs: seq<Result<set<int>, PageError>>, total: int)
    requires |rs| >= 1
    requires forall k :: 0 <= k < |rs| ==> rs[k].Ok? ==> rs[k].value != {} && forall x :: x in rs[k].value ==> 1 <= x <= total
    ensures CollectPages(rs).Ok? ==> CollectPages(rs).value != {} && forall x :: x in CollectPages(rs).value ==> 1 <= x <= total
  {
    CollectPagesMeaning(rs);
    if CollectPages(rs).Ok? {
      var s := CollectPages(rs).value;
      assert rs[0].Ok? && rs[0].value != {};
      forall x | x in rs[0].value ensures x in s {
        assert 0 < |rs| && rs[0].Ok? && x in rs[0].value;
      }
      assert rs[0].value <= s;
      forall y | y in s ensures 1 <= y <= total {
        var k :| 0 <= k < |rs| && rs[k].Ok? && y in rs[k].value;
      }
    }
  }

  /** Every page `1 .. total`. */
  function AllPages(total: int): (r: set<int>)
    ensures forall x :: x in r <==> 1 <= x <= total
  {
    PageSpan(1, total)
  }

  /** `start_ocr` in editor.py: `None` for an empty field, else the checked
      set. */
  method EditorPageSelection(entry: string, total: int) returns (r: Result<Option<set<int>>, PageError>)
    ensures Strip(entry) == [] ==> r == Ok(None)
    ensures Strip(entry) != [] && CheckedPages(Strip(entry), total).Ok? ==>
      r == Ok(Some(CheckedPages(Strip(entry), total).value))
    ensures Strip(entry) != [] && CheckedPages(Strip(entry), total).Err? ==>
      r == Err(CheckedPages(Strip(entry), total).error)
  {
    var pageRange := Strip(entry);
    if pageRange == [] {
      return Ok(None);
    }
    var checked := CheckedPageSet(pageRange, total);
    match checked {
      case Ok(s) => r := Ok(Some(s));
      case Err(e) => r := Err(e);
    }
  }

  /** `if not pages_to_process: pages_to_process = range(1, total_pages + 1)`
      in `process_file_ocr` (editor.py). */
  function PagesToProcess(selection: Option<set<int>>, total: int): set<int> {
    if selection.None? || selection.value == {} then AllPages(total) else selection.value
  }

  /** What editor.py goes on to process: every page for an empty field, and
      otherwise exactly the accepted set, which lies within `1 .. total`. */
  lemma EditorPagesProcessed(entry: string, total: int)
    ensures Strip(entry) == [] ==> PagesToProcess(None, total) == AllPages(total)
    ensures Strip(entry) != [] && CheckedPages(Strip(entry), total).Ok? ==>
      var s := CheckedPages(Strip(entry), total).value;
      && PagesToProcess(Some(s), total) == s
      && forall x :: x in s ==> 1 <= x <= total
  {
    if Strip(entry) != [] {
      CheckedPartsMeaning(Split(Strip(entry), ","), total);
    }
  }

  /** The hint gui.py shows in an empty page field. */
  const Placeholder: string := "e.g., 1-3, 5, 7-9"

  /** `start_processing` in gui.py: an empty field or the untouched hint
      select every page; anything else goes through the checked loop. */
  method GuiPageSelection(entry: string, total: int) returns (r: Result<set<int>, PageError>)
    ensures Strip(entry) == [] || Strip(entry) == Placeholder ==> r == Ok(AllPages(total))
    ensures Strip(entry) != [] && Strip(entry) != Placeholder ==> r == CheckedPages(Strip(entry), total)
  {
    var pageRangeText := Strip(entry);
    if pageRangeText == [] || pageRangeText == Placeholder {
      return Ok(AllPages(total));
    }
    r := CheckedPageSet(pageRangeText, total);
  }

  /** The hint itself would be refused by the checked loop: its first part
      `e.g.` is not a number. */
  lemma PlaceholderIsNotARange(total: int)
    ensures CheckedPages(Placeholder, total).Err?
  {
    PlaceholderFirstPart();
    NotANumber(total);
    FirstPartRefused(Placeholder, total);
  }

  lemma PlaceholderFirstPart()
    ensures Split(Placeholder, ",")[0] == "e.g."
  {
    assert Placeholder == "e.g." + [','] + " 1-3, 5, 7-9";
    SplitAtFirst("e.g.", ',', " 1-3, 5, 7-9");
  }

  lemma NotANumber(total: int)
    ensures CheckedPart("e.g.", total).Err?
  {
    StripOfUnpadded("e.g.");
    assert IntTrim("e.g.") == "e.g.";
    assert !IsDigitGroup("e.g.");
  }

  /** A refused first part makes the whole range refused. */
  lemma FirstPartRefused(pageRange: string, total: int)
    requires CheckedPart(Split(pageRange, ",")[0], total).Err?
    ensures CheckedPages(pageRange, total).Err?
  {
    var rs := CheckedResults(Split(pageRange, ","), total);
    CollectPagesSnoc([], rs[0]);
    assert rs[..1] == [] + [rs[0]];
    CollectPagesErrorStays(rs, 1, rs[0].error);
  }
}
