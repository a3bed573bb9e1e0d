/** `translate_and_rewrite_text`: the OCR text of a page is cut into
    2000-character slices, every non-blank slice is sent to the translation
    service, and the pieces are joined with single spaces; a slice the service
    answers with nothing, or fails on, is kept as it was. The service is a
    parameter: for each slice it returns a text, returns `None`, or raises. */
module Translation {
  import opened PyText
  import opened Slicing

  /** What one `translator.translate(chunk)` call does. */
  datatype Reply = Returned(text: string) | ReturnedNone | Raised

  /** The slice width the translation service is called with. */
  const SliceWidth: nat := 2000

  /** `translated_chunk if translated_chunk else chunk`, and the `except`
      branch that appends the chunk itself. */
  function PieceOf(slice: string, reply: Reply): string {
    match reply
    case Returned(t) => if t != [] then t else slice
    case _ => slice
  }

  /** The slices that the loop does not skip, in order. */
  function NonBlank(slices: seq<string>): seq<string> {
    if slices == [] then []
    else
      var last := slices[|slices| - 1];
      NonBlank(slices[..|slices| - 1]) + (if IsBlank(last) then [] else [last])
  }

  /** One piece per non-blank slice, in order. */
  function Pieces(slices: seq<string>, translate: string -> Reply): (r: seq<string>)
    ensures |r| == |slices|
    ensures forall k :: 0 <= k < |r| ==> r[k] == PieceOf(slices[k], translate(slices[k]))
  {
    if slices == [] then []
    else Pieces(slices[..|slices| - 1], translate) + [PieceOf(slices[|slices| - 1], translate(slices[|slices| - 1]))]
  }

  lemma PiecesSnoc(xs: seq<string>, s: string, translate: string -> Reply)
    ensures Pieces(xs + [s], translate) == Pieces(xs, translate) + [PieceOf(s, translate(s))]
  {
    assert (xs + [s])[..|xs|] == xs;
  }

  lemma NonBlankSnoc(xs: seq<string>, s: string)
    ensures NonBlank(xs + [s]) == NonBlank(xs) + (if IsBlank(s) then [] else [s])
  {
    assert (xs + [s])[..|xs|] == xs;
  }

  /** A piece is the service's answer when that answer is a non-empty text,
      and the untouched slice in every other case (empty answer, `None`, or
      an exception). */
  lemma PieceFallback(slice: string, reply: Reply)
    ensures PieceOf(slice, reply) == slice <== !(reply.Returned? && reply.text != [])
    ensures reply.Returned? && reply.text != [] ==> PieceOf(slice, reply) == reply.text
  {
  }

  lemma {:induction false} NonBlankMembers(slices: seq<string>)
    ensures forall x :: x in NonBlank(slices) <==> x in slices && !IsBlank(x)
  {
    if slices != [] {
      NonBlankMembers(slices[..|slices| - 1]);
      assert slices == slices[..|slices| - 1] + [slices[|slices| - 1]];
    }
  }

  /** A text that is not blank always has a non-blank slice, so the loop
      collects at least one piece and the final `return text` of the source
      is never reached by such a text. */
  lemma SomePieceForNonBlank(text: string)
    requires !IsBlank(text)
    ensures NonBlank(Slices(text, SliceWidth)) != []
  {
    var slices := Slices(text, SliceWidth);
    NonBlankSlice(slices);
    var k :| 0 <= k < |slices| && !IsBlank(slices[k]);
    NonBlankMembers(slices);
    assert slices[k] in NonBlank(slices);
  }

  /** `translate_and_rewrite_text(text, target_lang)`. */
  method TranslateAndRewrite(text: string, translate: string -> Reply) returns (r: string)
    ensures IsBlank(text) ==> r == text
    ensures !IsBlank(text) ==> r == Join(" ", Pieces(NonBlank(Slices(text, SliceWidth)), translate))
  {
    if IsBlank(text) {
      return text;
    }
    var chunks := Slices(text, SliceWidth);
    var translatedChunks := TranslateSlices(chunks, translate);
    SomePieceForNonBlank(text);
    if translatedChunks != [] {
      r := Join(" ", translatedChunks);
    } else {
      r := text;
    }
  }

  /** One turn of the loop: a blank slice is skipped, any other adds its
      piece. */
  lemma TranslateStep(chunks: seq<string>, i: nat, translate: string -> Reply)
    requires i < |chunks|
    ensures Pieces(NonBlank(chunks[..i + 1]), translate) ==
      Pieces(NonBlank(chunks[..i]), translate) + (if IsBlank(chunks[i]) then [] else [PieceOf(chunks[i], translate(chunks[i]))])
  {
    assert chunks[..i + 1] == chunks[..i] + [chunks[i]];
    NonBlankSnoc(chunks[..i], chunks[i]);
    if !IsBlank(chunks[i]) {
      PiecesSnoc(NonBlank(chunks[..i]), chunks[i], translate);
    }
  }

  /** The loop of `translate_and_rewrite_text` over the slices. */
  method TranslateSlices(chunks: seq<string>, translate: string -> Reply) returns (translatedChunks: seq<string>)
    ensures translatedChunks == Pieces(NonBlank(chunks), translate)
  {
    translatedChunks := [];
    var i := 0;
    while i < |chunks|
      invariant 0 <= i <= |chunks|
      invariant translatedChunks == Pieces(NonBlank(chunks[..i]), translate)
    {
      var chunk := chunks[i];
      TranslateStep(chunks, i, translate);
      if !IsBlank(chunk) {
        var reply := translate(chunk);
        match reply {
          case Returned(t) =>
            translatedChunks := translatedChunks + [if t != [] then t else chunk];
          case ReturnedNone =>
            translatedChunks := translatedChunks + [chunk];
          case Raised =>
            translatedChunks := translatedChunks + [chunk];
        }
      }
      i := i + 1;
    }
    assert chunks[..|chunks|] == chunks;
  }

  /** When the service never answers with text, a page whose slices are all
      non-blank comes back as its slices joined by single spaces: a space is
      inserted every 2000 characters, even inside a word, and a page of at
      most 2000 characters comes back unchanged. */
  lemma UntranslatedPage(text: string, translate: string -> Reply)
    requires forall s :: !(translate(s).Returned? && translate(s).text != [])
    requires forall k :: 0 <= k < |Slices(text, SliceWidth)| ==> !IsBlank(Slices(text, SliceWidth)[k])
    ensures Join(" ", Pieces(NonBlank(Slices(text, SliceWidth)), translate)) == Join(" ", Slices(text, SliceWidth))
    ensures 0 < |text| <= SliceWidth ==> Join(" ", Pieces(NonBlank(Slices(text, SliceWidth)), translate)) == text
  {
    var slices := Slices(text, SliceWidth);
    NonBlankAll(slices);
    PiecesUntranslated(slices, translate);
    if 0 < |text| <= SliceWidth {
      assert slices == [text];
    }
  }

  /** Without a usable answer every piece is its slice. */
  lemma PiecesUntranslated(slices: seq<string>, translate: string -> Reply)
    requires forall s :: !(translate(s).Returned? && translate(s).text != [])
    ensures Pieces(slices, translate) == slices
  {
    var p := Pieces(slices, translate);
    forall k | 0 <= k < |p| ensures p[k] == slices[k] {
      PieceFallback(slices[k], translate(slices[k]));
    }
  }

  lemma {:induction false} NonBlankAll(slices: seq<string>)
    requires forall k :: 0 <= k < |slices| ==> !IsBlank(slices[k])
    ensures NonBlank(slices) == slices
  {
    if slices != [] {
      NonBlankAll(slices[..|slices| - 1]);
      assert slices == slices[..|slices| - 1] + [slices[|slices| - 1]];
    }
  }
}
