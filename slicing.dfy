/** Cutting text into pieces for the size-limited speech and translation
    services: fixed-width slices (`[text[i:i+n] for i in range(0, len(text), n)]`),
    the slice width `read_text` picks from the detected language, and the
    sentence split that `text_to_speech_google` hands to the speech service. */
module Slicing {
  import opened PyText

  /** `''.join(parts)`. */
  function Concat(parts: seq<string>): string {
    if parts == [] then [] else parts[0] + Concat(parts[1..])
  }

  /** `[text[i:i+n] for i in range(0, len(text), n)]`: the slices put back
      together are the text, none is empty or wider than `n`, and all but the
      last are exactly `n` wide. */
  function Slices(text: string, n: nat): (r: seq<string>)
    requires n > 0
    ensures Concat(r) == text
    ensures forall k :: 0 <= k < |r| ==> 0 < |r[k]| <= n
    ensures forall k :: 0 <= k < |r| - 1 ==> |r[k]| == n
    decreases |text|
  {
    if text == [] then []
    else if |text| <= n then [text]
    else [text[..n]] + Slices(text[n..], n)
  }

  /** The three properties of `Slices` pin it down: any cut of the text into
      non-empty pieces of width at most `n`, all but the last exactly `n`
      wide, is the one `Slices` computes. */
  lemma {:induction false} SlicesUnique(parts: seq<string>, text: string, n: nat)
    requires n > 0
    requires Concat(parts) == text
    requires forall k :: 0 <= k < |parts| ==> 0 < |parts[k]| <= n
    requires forall k :: 0 <= k < |parts| - 1 ==> |parts[k]| == n
    ensures parts == Slices(text, n)
    decreases |parts|
  {
    if parts != [] {
      var rest := parts[1..];
      assert text == parts[0] + Concat(rest);
      if |parts| == 1 {
        assert Concat(rest) == [];
        assert text == parts[0];
      } else {
        assert |parts[0]| == n;
        assert |Concat(rest)| > 0 by { ConcatLength(rest); assert |rest[0]| > 0; }
        assert text[..n] == parts[0];
        assert text[n..] == Concat(rest);
        SlicesUnique(rest, text[n..], n);
      }
    }
  }

  lemma {:induction false} ConcatLength(parts: seq<string>)
    requires |parts| > 0
    ensures |Concat(parts)| >= |parts[0]|
  {
  }

  /** Some slice of a text that is not blank is itself not blank. */
  lemma {:induction false} NonBlankSlice(parts: seq<string>)
    requires !IsBlank(Concat(parts))
    ensures exists k :: 0 <= k < |parts| && !IsBlank(parts[k])
  {
    if parts != [] {
      if IsBlank(parts[0]) {
        assert !IsBlank(Concat(parts[1..])) by {
          var j :| 0 <= j < |Concat(parts)| && !IsSpace(Concat(parts)[j]);
          assert Concat(parts) == parts[0] + Concat(parts[1..]);
          assert Concat(parts[1..])[j - |parts[0]|] == Concat(parts)[j];
        }
        NonBlankSlice(parts[1..]);
        var k :| 0 <= k < |parts[1..]| && !IsBlank(parts[1..][k]);
        assert !IsBlank(parts[k + 1]);
      }
    }
  }

  // ---------------------------------------------------------------------
  // read_text

  /** `lang_map.get(detected_lang, 'en')`: the six codes the speech service is
      asked for; any other detected language is read as English. */
  function SpeechLanguage(detected: string): string {
    if detected in {"ta", "en", "hi", "te", "ml", "kn"} then detected else "en"
  }

  /** `chunk_size = 5000 if tts_lang == 'en' else 3000`. */
  function ReadChunkSize(ttsLang: string): (size: nat)
    ensures size == 5000 || size == 3000
  {
    if ttsLang == "en" then 5000 else 3000
  }

  /** The slices `read_text` turns into speech, one audio file each. */
  function ReadTextChunks(text: string, detected: string): seq<string> {
    Slices(text, ReadChunkSize(SpeechLanguage(detected)))
  }

  /** English (and every language outside the map) is read in pieces of 5000
      characters, the five other supported languages in pieces of 3000; the
      pieces put back together are the text, and all but the last are full. */
  lemma ReadTextChunksShape(text: string, detected: string)
    ensures var size := if detected in {"ta", "hi", "te", "ml", "kn"} then 3000 else 5000;
      && Concat(ReadTextChunks(text, detected)) == text
      && (forall k :: 0 <= k < |ReadTextChunks(text, detected)| ==> 0 < |ReadTextChunks(text, detected)[k]| <= size)
      && (forall k :: 0 <= k < |ReadTextChunks(text, detected)| - 1 ==> |ReadTextChunks(text, detected)[k]| == size)
  {
  }

  // ---------------------------------------------------------------------
  // text_to_speech_google

  predicate EndsWithPeriod(s: string) {
    |s| > 0 && s[|s| - 1] == '.'
  }

  /** The speech chunks of `text_to_speech_google`: `text.split('. ')`, with
      a `.` put back on every piece that does not already end with one. */
  function SpeechSentences(text: string): (r: seq<string>)
    ensures |r| == |Split(text, ". ")|
    ensures forall k :: 0 <= k < |r| ==> EndsWithPeriod(r[k])
    ensures forall k :: 0 <= k < |r| ==>
      var p := Split(text, ". ")[k];
      r[k] == if EndsWithPeriod(p) then p else p + "."
  {
    PeriodTerminated(Split(text, ". "))
  }

  function PeriodTerminated(pieces: seq<string>): (r: seq<string>)
    ensures |r| == |pieces|
    ensures forall k :: 0 <= k < |r| ==> EndsWithPeriod(r[k])
    ensures forall k :: 0 <= k < |r| ==>
      r[k] == if EndsWithPeriod(pieces[k]) then pieces[k] else pieces[k] + "."
  {
    if pieces == [] then []
    else
      var p := pieces[0];
      [if EndsWithPeriod(p) then p else p + "."] + PeriodTerminated(pieces[1..])
  }

  /** Nothing of the text is lost: each chunk begins with its piece and adds at
      most the one period, and the pieces joined with `". "` are the text. */
  lemma SpeechSentencesKeepText(text: string)
    ensures Join(". ", Split(text, ". ")) == text
    ensures forall k :: 0 <= k < |SpeechSentences(text)| ==>
      var p := Split(text, ". ")[k];
      var c := SpeechSentences(text)[k];
      |p| <= |c| <= |p| + 1 && c[..|p|] == p
  {
    JoinSplit(text, ". ");
  }
}
