/** `split_into_chunks(text, chunk_size)`: the text is cut at every `.`,
    each piece is stripped and given back its period, and the sentences are
    packed greedily, in order, into chunks whose sentence lengths add up to
    at most `chunk_size`; a sentence that does not fit starts a new chunk
    unless the current one is still empty. Each chunk is its sentences
    joined by single spaces (the spaces are not counted). */
module SentenceChunks {
  import opened PyText

  /** `sentence.strip() + '.'` for every piece of `text.split('.')`. */
  function Sentences(text: string): (r: seq<string>)
    ensures |r| == |Split(text, ".")| && |r| >= 1
  {
    SentencesOf(Split(text, "."))
  }

  /** `sentence.strip() + '.'` for every piece. */
  function SentencesOf(pieces: seq<string>): (r: seq<string>)
    ensures |r| == |pieces|
    ensures forall k :: 0 <= k < |r| ==> r[k] == Strip(pieces[k]) + "."
  {
    seq(|pieces|, k requires 0 <= k < |pieces| => Strip(pieces[k]) + ".")
  }

  /** The total length of a group of sentences. */
  function SumLen(g: seq<string>): nat {
    if g == [] then 0 else SumLen(g[..|g| - 1]) + |g[|g| - 1]|
  }

  /** The groups put back one after the other. */
  function Flatten(gs: seq<seq<string>>): seq<string> {
    if gs == [] then [] else Flatten(gs[..|gs| - 1]) + gs[|gs| - 1]
  }

  /** The loop state: `chunks` (still as groups), `current_chunk` and
      `current_size`. */
  datatype Packing = Packing(done: seq<seq<string>>, current: seq<string>, size: int)

  /** One turn of the loop on `sentence`: start a new chunk when it would
      overflow a non-empty current chunk, otherwise append it. */
  function Next(p: Packing, s: string, budget: int): Packing {
    if p.size + |s| > budget && p.current != [] then Packing(p.done + [p.current], [s], |s|)
    else Packing(p.done, p.current + [s], p.size + |s|)
  }

  /** The loop state after the given sentences. */
  function Pack(ss: seq<string>, budget: int): Packing {
    if ss == [] then Packing([], [], 0)
    else Next(Pack(ss[..|ss| - 1], budget), ss[|ss| - 1], budget)
  }

  /** The groups of sentences behind the chunks: the closed ones, then the
      last one if it is not empty. */
  function Groups(ss: seq<string>, budget: int): seq<seq<string>> {
    var p := Pack(ss, budget);
    if p.current != [] then p.done + [p.current] else p.done
  }

  /** `' '.join(group)` for every group. */
  function JoinAll(gs: seq<seq<string>>): (r: seq<string>)
    ensures |r| == |gs|
    ensures forall k :: 0 <= k < |gs| ==> r[k] == Join(" ", gs[k])
  {
    seq(|gs|, k requires 0 <= k < |gs| => Join(" ", gs[k]))
  }

  /** What the greedy packing guarantees of its groups: none is empty, a
      group of two or more sentences fits the budget, and every group but
      the last was closed because the first sentence of the next one would
      have overflowed it. */
  predicate WellPacked(gs: seq<seq<string>>, budget: int) {
    && (forall i :: 0 <= i < |gs| ==> gs[i] != [])
    && (forall i :: 0 <= i < |gs| && |gs[i]| >= 2 ==> SumLen(gs[i]) <= budget)
    && (forall j :: 1 <= j < |gs| ==> SumLen(gs[j - 1]) + |gs[j][0]| > budget)
  }

  lemma SumLenSnoc(g: seq<string>, s: string)
    ensures SumLen(g + [s]) == SumLen(g) + |s|
  {
    assert (g + [s])[..|g|] == g;
  }

  lemma FlattenSnoc(gs: seq<seq<string>>, g: seq<string>)
    ensures Flatten(gs + [g]) == Flatten(gs) + g
  {
    assert (gs + [g])[..|gs|] == gs;
  }

  /** Closing a group keeps the packing well formed when the group fits and
      the previous group could not take its first sentence. */
  lemma WellPackedSnoc(gs: seq<seq<string>>, g: seq<string>, budget: int)
    requires WellPacked(gs, budget)
    requires g != [] && (|g| >= 2 ==> SumLen(g) <= budget)
    requires gs != [] ==> SumLen(gs[|gs| - 1]) + |g[0]| > budget
    ensures WellPacked(gs + [g], budget)
  {
    var hs := gs + [g];
    forall j | 1 <= j < |hs|
      ensures hs[j] != [] && SumLen(hs[j - 1]) + |hs[j][0]| > budget
    {
      if j < |gs| {
        assert hs[j - 1] == gs[j - 1] && hs[j] == gs[j];
      } else {
        assert hs[j - 1] == gs[|gs| - 1] && hs[j] == g;
      }
    }
  }

  /** The invariant of the packing loop, for the state `p` reached after
      the sentences `ss`. */
  predicate PackInv(p: Packing, ss: seq<string>, budget: int) {
    && p.size == SumLen(p.current)
    && Flatten(p.done) + p.current == ss
    && (p.current == [] <==> ss == [])
    && (p.current == [] ==> p.done == [])
    && WellPacked(p.done, budget)
    && (|p.current| >= 2 ==> p.size <= budget)
    && (p.done != [] ==> SumLen(p.done[|p.done| - 1]) + |p.current[0]| > budget)
  }

  /** One turn of the loop keeps the invariant. */
  lemma NextKeepsInv(p: Packing, ss: seq<string>, s: string, budget: int)
    requires PackInv(p, ss, budget)
    ensures PackInv(Next(p, s, budget), ss + [s], budget)
  {
    if p.size + |s| > budget && p.current != [] {
      CloseKeepsInv(p, ss, s, budget);
    } else {
      AppendKeepsInv(p, ss, s, budget);
    }
  }

  /** The turn that closes the current chunk and starts a new one. */
  lemma CloseKeepsInv(p: Packing, ss: seq<string>, s: string, budget: int)
    requires PackInv(p, ss, budget)
    requires p.size + |s| > budget && p.current != []
    ensures PackInv(Packing(p.done + [p.current], [s], |s|), ss + [s], budget)
  {
    WellPackedSnoc(p.done, p.current, budget);
    FlattenSnoc(p.done, p.current);
    assert SumLen([s]) == |s| by { SumLenSnoc([], s); }
  }

  /** The turn that appends the sentence to the current chunk. */
  lemma AppendKeepsInv(p: Packing, ss: seq<string>, s: string, budget: int)
    requires PackInv(p, ss, budget)
    requires !(p.size + |s| > budget && p.current != [])
    ensures PackInv(Packing(p.done, p.current + [s], p.size + |s|), ss + [s], budget)
  {
    SumLenSnoc(p.current, s);
    if p.current != [] {
      assert (p.current + [s])[0] == p.current[0];
    }
  }

  lemma {:induction false} PackInvariant(ss: seq<string>, budget: int)
    ensures PackInv(Pack(ss, budget), ss, budget)
  {
    if ss != [] {
      var init := ss[..|ss| - 1];
      var s := ss[|ss| - 1];
      assert init + [s] == ss;
      assert Pack(ss, budget) == Next(Pack(init, budget), s, budget);
      PackInvariant(init, budget);
      NextKeepsInv(Pack(init, budget), init, s, budget);
    }
  }

  /** The groups hold every sentence once, in order, and are well packed;
      there is at least one group as soon as there is a sentence. */
  lemma GroupsMeaning(ss: seq<string>, budget: int)
    ensures Flatten(Groups(ss, budget)) == ss
    ensures WellPacked(Groups(ss, budget), budget)
    ensures ss != [] <==> Groups(ss, budget) != []
  {
    var p := Pack(ss, budget);
    PackInvariant(ss, budget);
    if p.current != [] {
      WellPackedSnoc(p.done, p.current, budget);
      FlattenSnoc(p.done, p.current);
    }
  }

  /** `split_into_chunks(text, chunk_size)`. */
  method SplitIntoChunks(text: string, chunkSize: int) returns (chunks: seq<string>)
    ensures chunks == JoinAll(Groups(Sentences(text), chunkSize))
  {
    var sentences := Split(text, ".");
    chunks := ChunkPieces(sentences, chunkSize);
  }

  /** The loop of `split_into_chunks` over the pieces of the text. */
  method ChunkPieces(sentences: seq<string>, chunkSize: int) returns (chunks: seq<string>)
    ensures chunks == JoinAll(Groups(SentencesOf(sentences), chunkSize))
  {
    ghost var all := SentencesOf(sentences);
    chunks := [];
    var currentChunk: seq<string> := [];
    var currentSize := 0;
    var i := 0;
    while i < |sentences|
      invariant 0 <= i <= |sentences|
      invariant Pack(all[..i], chunkSize) == Packing(Pack(all[..i], chunkSize).done, currentChunk, currentSize)
      invariant chunks == JoinAll(Pack(all[..i], chunkSize).done)
    {
      var sentence := Strip(sentences[i]) + ".";
      PackStep(all, i, chunkSize);
      ghost var done := Pack(all[..i], chunkSize).done;
      if currentSize + |sentence| > chunkSize && currentChunk != [] {
        JoinAllSnoc(done, currentChunk);
        chunks := chunks + [Join(" ", currentChunk)];
        currentChunk := [sentence];
        currentSize := |sentence|;
      } else {
        currentChunk := currentChunk + [sentence];
        currentSize := currentSize + |sentence|;
      }
      i := i + 1;
    }
    assert all[..|sentences|] == all;
    ghost var done := Pack(all, chunkSize).done;
    if currentChunk != [] {
      JoinAllSnoc(done, currentChunk);
      chunks := chunks + [Join(" ", currentChunk)];
    }
  }

  lemma PackStep(ss: seq<string>, i: nat, budget: int)
    requires i < |ss|
    ensures Pack(ss[..i + 1], budget) == Next(Pack(ss[..i], budget), ss[i], budget)
  {
    assert ss[..i + 1][..i] == ss[..i];
  }

  lemma JoinAllSnoc(gs: seq<seq<string>>, g: seq<string>)
    ensures JoinAll(gs + [g]) == JoinAll(gs) + [Join(" ", g)]
  {
  }

  /** What `split_into_chunks` returns: at least one chunk; the chunks are
      the well-packed groups of the stripped, period-terminated sentences,
      each joined by single spaces, and the groups hold every sentence once,
      in order. */
  lemma SplitIntoChunksMeaning(text: string, chunkSize: int)
    ensures var gs := Groups(Sentences(text), chunkSize);
      && |JoinAll(gs)| >= 1
      && Flatten(gs) == Sentences(text)
      && WellPacked(gs, chunkSize)
  {
    GroupsMeaning(Sentences(text), chunkSize);
  }
}
