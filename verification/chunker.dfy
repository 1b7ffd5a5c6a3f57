/**
 `TextChunker` with the four-characters-per-token counter: paragraphs are
 packed greedily up to `chunk_size` tokens; when a paragraph does not fit, the
 accumulated paragraphs become a chunk and the next chunk is seeded with the
 tail of that chunk's text; a paragraph that alone exceeds the budget is cut
 into sentences, which are packed without any overlap.
 */
module Chunker {
  import opened Outcomes
  import opened Text
  import opened Segmentation

  /** The metadata key under which every chunk records its own token count. */
  const TokenCountKey: string := "token_count"

  datatype TextChunk = TextChunk(content: string, source: string, chunkIndex: nat, metadata: Metadata)
  {
    /** `TextChunk.id`: `"{source}::chunk_{chunk_index}"` */
    function Id(): string {
      source + "::chunk_" + NatToString(chunkIndex)
    }
  }

  /** `chunk_size` and `chunk_overlap`, both in tokens. */
  datatype Config = Config(chunkSize: int, chunkOverlap: int)

  /** Two chunks of one source with different indices have different ids. */
  lemma IdsDistinct(a: TextChunk, b: TextChunk)
    requires a.source == b.source && a.chunkIndex != b.chunkIndex
    ensures a.Id() != b.Id()
  {
    if a.Id() == b.Id() {
      var n := |a.source + "::chunk_"|;
      assert a.Id()[n..] == NatToString(a.chunkIndex);
      assert b.Id()[n..] == NatToString(b.chunkIndex);
      NatToStringInjective(a.chunkIndex, b.chunkIndex);
    }
  }

  /* ---------------- creating a chunk ---------------- */

  /** A chunk carries the caller's source and every caller metadata key, plus
      `token_count`, which is the estimate for the chunk's own content (a
      caller key of that name is overridden). */
  predicate Describes(c: TextChunk, source: string, meta: Metadata) {
    && c.source == source
    && c.metadata.Keys == meta.Keys + {TokenCountKey}
    && (forall k :: k in meta && k != TokenCountKey ==> c.metadata[k] == meta[k])
    && c.metadata[TokenCountKey] == IntValue(EstimateTokens(c.content))
  }

  /** `_create_chunk`: the parts joined with single spaces. */
  function CreateChunk(parts: seq<string>, source: string, index: nat, meta: Metadata): (c: TextChunk)
    ensures c.content == JoinWith(parts, " ") && c.chunkIndex == index
    ensures Describes(c, source, meta)
  {
    var content := JoinWith(parts, " ");
    TextChunk(content, source, index, meta[TokenCountKey := IntValue(EstimateTokens(content))])
  }

  /* ---------------- the overlap tail ---------------- */

  /** `_get_overlap_text`, character branch, as the source writes it:
      `full_text[-chars:]` with `chars = chunk_overlap * 4`. */
  function OverlapTailAsWritten(cfg: Config, parts: seq<string>): (r: string)
    ensures parts == [] ==> r == []
    ensures IsSuffix(r, JoinWith(parts, " "))
  {
    if parts == [] then []
    else
      var full := JoinWith(parts, " ");
      var chars := cfg.chunkOverlap * 4;
      if |full| > chars then PySliceFrom(full, -chars) else full
  }

  /** The last `chunk_overlap * 4` characters of a text, all of it when it is
      shorter, and nothing when the overlap is not positive. */
  function CharTail(cfg: Config, full: string): (r: string)
    ensures IsSuffix(r, full)
    ensures cfg.chunkOverlap <= 0 ==> r == []
    ensures cfg.chunkOverlap > 0 && |full| <= 4 * cfg.chunkOverlap ==> r == full
    ensures cfg.chunkOverlap > 0 && |full| > 4 * cfg.chunkOverlap ==> |r| == 4 * cfg.chunkOverlap
  {
    var chars := cfg.chunkOverlap * 4;
    if chars <= 0 then [] else if |full| > chars then full[|full| - chars..] else full
  }

  /** `_get_overlap_text` with the overlap read as a count of characters to
      keep: empty without parts, otherwise the tail of the joined parts. */
  function OverlapTail(cfg: Config, parts: seq<string>): (r: string)
    ensures parts == [] ==> r == []
    ensures parts != [] ==> r == CharTail(cfg, JoinWith(parts, " "))
    ensures IsSuffix(r, JoinWith(parts, " "))
  {
    if parts == [] then [] else CharTail(cfg, JoinWith(parts, " "))
  }

  /** For every positive overlap the source's slice and `OverlapTail` agree. */
  lemma OverlapTailAgrees(cfg: Config, parts: seq<string>)
    requires cfg.chunkOverlap > 0
    ensures OverlapTailAsWritten(cfg, parts) == OverlapTail(cfg, parts)
  {
  }

  /** With `chunk_overlap <= 0` the source's bound `-chars` is not negative,
      so `full_text[-chars:]` drops the first `-4 * chunk_overlap` characters
      instead of keeping the last ones: with 0 the next chunk repeats the
      entire previous chunk, and with a negative overlap all of it but its
      first `4 * |chunk_overlap|` characters. The corrected tail is empty. */
  lemma NonPositiveOverlapRepeatsChunk(cfg: Config, parts: seq<string>)
    requires cfg.chunkOverlap <= 0 && parts != []
    ensures var full, drop := JoinWith(parts, " "), -4 * cfg.chunkOverlap;
            && (drop <= |full| ==> OverlapTailAsWritten(cfg, parts) == full[drop..])
            && (drop > |full| ==> OverlapTailAsWritten(cfg, parts) == [])
    ensures cfg.chunkOverlap == 0 ==> OverlapTailAsWritten(cfg, parts) == JoinWith(parts, " ")
    ensures OverlapTail(cfg, parts) == []
  {
    var full := JoinWith(parts, " ");
    if full == [] {
      assert OverlapTailAsWritten(cfg, parts) == [];
    }
  }

  /* ---------------- packing sentences ---------------- */

  /** The sentence packer's loop state: the finished groups, the sentences
      accumulated so far and their running token count. */
  datatype Groups = Groups(done: seq<seq<string>>, current: seq<string>, currentTokens: int)

  /** One iteration of the loop of `_split_large_paragraph`. */
  function SentenceStep(cfg: Config, g: Groups, sentence: string): Groups
  {
    var tokens := EstimateTokens(sentence);
    if g.currentTokens + tokens > cfg.chunkSize then
      Groups(if g.current == [] then g.done else g.done + [g.current], [sentence], tokens)
    else
      Groups(g.done, g.current + [sentence], g.currentTokens + tokens)
  }

  function PackSentencesFrom(cfg: Config, g: Groups, sentences: seq<string>): Groups
    decreases |sentences|
  {
    if sentences == [] then g else PackSentencesFrom(cfg, SentenceStep(cfg, g, sentences[0]), sentences[1..])
  }

  /** What the packer has established after seeing `seen`. */
  ghost predicate GreedyInv(cfg: Config, g: Groups, seen: seq<string>) {
    && Concat(g.done) + g.current == seen
    && g.currentTokens == TokenSum(g.current)
    && (forall j :: 0 <= j < |g.done| ==> g.done[j] != [])
    && (forall j :: 0 <= j < |g.done| ==> |g.done[j]| >= 2 ==> TokenSum(g.done[j]) <= cfg.chunkSize)
    && (|g.current| >= 2 ==> g.currentTokens <= cfg.chunkSize)
    && (forall j :: 0 <= j < |g.done| - 1 ==>
          TokenSum(g.done[j]) + EstimateTokens(g.done[j + 1][0]) > cfg.chunkSize)
    && (g.done != [] ==>
          && g.current != []
          && TokenSum(g.done[|g.done| - 1]) + EstimateTokens(g.current[0]) > cfg.chunkSize)
  }

  lemma TokenSumSingle(x: string)
    ensures TokenSum([x]) == EstimateTokens(x)
  {
    assert [x][1..] == [];
  }

  /** The branch that closes the current group and starts a new one. */
  lemma CloseGroupKeepsInv(cfg: Config, g: Groups, seen: seq<string>, sentence: string)
    requires GreedyInv(cfg, g, seen)
    requires g.currentTokens + EstimateTokens(sentence) > cfg.chunkSize
    ensures GreedyInv(cfg, SentenceStep(cfg, g, sentence), seen + [sentence])
  {
    var g' := SentenceStep(cfg, g, sentence);
    TokenSumSingle(sentence);
    if g.current != [] {
      var done', n := g.done + [g.current], |g.done|;
      assert g'.done == done';
      ConcatAppend(g.done, g.current);
      assert Concat(g'.done) + g'.current == seen + [sentence];
      forall j | 0 <= j < |done'|
        ensures done'[j] != []
        ensures |done'[j]| >= 2 ==> TokenSum(done'[j]) <= cfg.chunkSize
      {
        if j < n {
          assert done'[j] == g.done[j];
        }
      }
      forall j | 0 <= j < |done'| - 1
        ensures TokenSum(done'[j]) + EstimateTokens(done'[j + 1][0]) > cfg.chunkSize
      {
        assert done'[j] == g.done[j];
        if j + 1 < n {
          assert done'[j + 1] == g.done[j + 1];
        }
      }
    } else {
      assert g.done == [];
      assert g'.done == [];
      assert Concat(g'.done) + g'.current == seen + [sentence];
    }
  }

  /** The branch that adds the sentence to the current group. */
  lemma ExtendGroupKeepsInv(cfg: Config, g: Groups, seen: seq<string>, sentence: string)
    requires GreedyInv(cfg, g, seen)
    requires g.currentTokens + EstimateTokens(sentence) <= cfg.chunkSize
    ensures GreedyInv(cfg, SentenceStep(cfg, g, sentence), seen + [sentence])
  {
    var g' := SentenceStep(cfg, g, sentence);
    TokenSumAppend(g.current, sentence);
    assert g'.current == g.current + [sentence];
    assert Concat(g'.done) + g'.current == (Concat(g.done) + g.current) + [sentence];
    if g.done != [] {
      assert g'.current[0] == g.current[0];
    }
  }

  lemma SentenceStepKeepsInv(cfg: Config, g: Groups, seen: seq<string>, sentence: string)
    requires GreedyInv(cfg, g, seen)
    ensures GreedyInv(cfg, SentenceStep(cfg, g, sentence), seen + [sentence])
  {
    if g.currentTokens + EstimateTokens(sentence) > cfg.chunkSize {
      CloseGroupKeepsInv(cfg, g, seen, sentence);
    } else {
      ExtendGroupKeepsInv(cfg, g, seen, sentence);
    }
  }

  lemma {:induction false} PackSentencesKeepsInv(cfg: Config, g: Groups, seen: seq<string>, rest: seq<string>)
    requires GreedyInv(cfg, g, seen)
    ensures GreedyInv(cfg, PackSentencesFrom(cfg, g, rest), seen + rest)
    decreases |rest|
  {
    if rest == [] {
      assert seen + rest == seen;
    } else {
      var seen', g' := seen + [rest[0]], SentenceStep(cfg, g, rest[0]);
      assert seen' + rest[1..] == seen + rest;
      SentenceStepKeepsInv(cfg, g, seen, rest[0]);
      PackSentencesKeepsInv(cfg, g', seen', rest[1..]);
    }
  }

  /** The sentence groups of `_split_large_paragraph`: greedy packing that
      loses no sentence and keeps their order, never leaves a group empty,
      keeps every group of two or more sentences within `chunk_size`, and closes
      a group only when the next sentence would push it over. */
  function PackSentences(cfg: Config, sentences: seq<string>): (groups: seq<seq<string>>)
    ensures Concat(groups) == sentences
    ensures forall j :: 0 <= j < |groups| ==> groups[j] != []
    ensures forall j :: 0 <= j < |groups| ==> |groups[j]| >= 2 ==> TokenSum(groups[j]) <= cfg.chunkSize
    ensures forall j :: 0 <= j < |groups| - 1 ==>
              TokenSum(groups[j]) + EstimateTokens(groups[j + 1][0]) > cfg.chunkSize
  {
    var start := Groups([], [], 0);
    assert GreedyInv(cfg, start, []);
    var g := PackSentencesFrom(cfg, start, sentences);
    PackSentencesKeepsInv(cfg, start, [], sentences);
    assert [] + sentences == sentences;
    if g.current == [] then
      assert g.done == [];
      []
    else
      CloseLastGroup(cfg, g, sentences);
      g.done + [g.current]
  }

  /** Closing the last, non-empty group keeps every property of the
      finished groups. */
  lemma CloseLastGroup(cfg: Config, g: Groups, seen: seq<string>)
    requires GreedyInv(cfg, g, seen) && g.current != []
    ensures var gs := g.done + [g.current];
            && Concat(gs) == seen
            && (forall j :: 0 <= j < |gs| ==> gs[j] != [])
            && (forall j :: 0 <= j < |gs| ==> |gs[j]| >= 2 ==> TokenSum(gs[j]) <= cfg.chunkSize)
            && (forall j :: 0 <= j < |gs| - 1 ==> TokenSum(gs[j]) + EstimateTokens(gs[j + 1][0]) > cfg.chunkSize)
  {
    var gs, n := g.done + [g.current], |g.done|;
    ConcatAppend(g.done, g.current);
    forall j | 0 <= j < |gs|
      ensures gs[j] != []
      ensures |gs[j]| >= 2 ==> TokenSum(gs[j]) <= cfg.chunkSize
    {
      if j < n {
        assert gs[j] == g.done[j];
      }
    }
    forall j | 0 <= j < |gs| - 1
      ensures TokenSum(gs[j]) + EstimateTokens(gs[j + 1][0]) > cfg.chunkSize
    {
      assert gs[j] == g.done[j];
      if j + 1 < n {
        assert gs[j + 1] == g.done[j + 1];
      }
    }
  }

  /** `_split_large_paragraph`: one chunk per sentence group, numbered from
      `start`. */
  function SplitLargeParagraph(cfg: Config, para: string, source: string, start: nat, meta: Metadata)
    : (r: seq<TextChunk>)
    ensures |r| == |PackSentences(cfg, Sentences(para))|
    ensures forall j :: 0 <= j < |r| ==>
              && r[j] == CreateChunk(PackSentences(cfg, Sentences(para))[j], source, start + j, meta)
              && r[j].chunkIndex == start + j && Describes(r[j], source, meta) && r[j].content != []
  {
    var groups := PackSentences(cfg, Sentences(para));
    GroupsHaveText(groups);
    ChunksOf(groups, source, start, meta)
  }

  /** One chunk per group, numbered from `start`. */
  function ChunksOf(groups: seq<seq<string>>, source: string, start: nat, meta: Metadata): (r: seq<TextChunk>)
    ensures |r| == |groups|
    ensures forall j :: 0 <= j < |r| ==> r[j] == CreateChunk(groups[j], source, start + j, meta)
  {
    seq(|groups|, j requires 0 <= j < |groups| => CreateChunk(groups[j], source, start + j, meta))
  }

  /** Groups of non-empty sentences join to non-empty text. */
  lemma GroupsHaveText(groups: seq<seq<string>>)
    requires forall j :: 0 <= j < |groups| ==> groups[j] != []
    requires forall i :: 0 <= i < |Concat(groups)| ==> Concat(groups)[i] != []
    ensures forall j :: 0 <= j < |groups| ==> JoinWith(groups[j], " ") != []
  {
    forall j | 0 <= j < |groups|
      ensures JoinWith(groups[j], " ") != []
    {
      ConcatHolds(groups, j, |groups[j]| - 1);
      JoinNonEmpty(groups[j], " ");
    }
  }

  /** Each element of each group is an element of the concatenation. */
  lemma {:induction false} ConcatHolds(gs: seq<seq<string>>, j: nat, i: nat)
    requires j < |gs| && i < |gs[j]|
    ensures gs[j][i] in Concat(gs)
    decreases j
  {
    if j > 0 {
      ConcatHolds(gs[1..], j - 1, i);
    }
  }

  /* ---------------- packing paragraphs ---------------- */

  /** The loop state of `chunk_text`: the chunks emitted so far, the
      accumulated parts (`current_chunk`) and `current_tokens`. */
  datatype Packer = Packer(chunks: seq<TextChunk>, current: seq<string>, currentTokens: int)

  /** The emitted chunks after flushing the accumulator, if it holds anything;
      the new chunk is numbered by its position. */
  function Flush(p: Packer, source: string, meta: Metadata): (r: seq<TextChunk>)
    ensures p.current == [] ==> r == p.chunks
    ensures p.current != [] ==> |r| == |p.chunks| + 1 && r[..|p.chunks|] == p.chunks
                                && r[|p.chunks|] == CreateChunk(p.current, source, |p.chunks|, meta)
  {
    if p.current == [] then p.chunks else p.chunks + [CreateChunk(p.current, source, |p.chunks|, meta)]
  }

  /** `chunk.chunk_index = len(chunks)` for each chunk appended in turn. */
  function Renumber(cs: seq<TextChunk>, start: nat): (r: seq<TextChunk>)
    ensures |r| == |cs|
    ensures forall j :: 0 <= j < |r| ==> r[j] == cs[j].(chunkIndex := start + j)
  {
    seq(|cs|, j requires 0 <= j < |cs| => cs[j].(chunkIndex := start + j))
  }

  /** One iteration of the paragraph loop of `chunk_text`. */
  function Step(cfg: Config, source: string, meta: Metadata, p: Packer, para: string): (r: Packer)
    ensures p.chunks <= r.chunks
    ensures EstimateTokens(para) > cfg.chunkSize ==> r.current == []
    ensures EstimateTokens(para) <= cfg.chunkSize ==> r.current != [] && r.current[|r.current| - 1] == para
  {
    var paraTokens := EstimateTokens(para);
    if paraTokens > cfg.chunkSize then
      // flush, then sentence-split; the accumulator is reset only if it held something
      var flushed := Flush(p, source, meta);
      var sentenceChunks := SplitLargeParagraph(cfg, para, source, |flushed|, meta);
      Packer(flushed + Renumber(sentenceChunks, |flushed|), [], if p.current == [] then p.currentTokens else 0)
    else if p.currentTokens + paraTokens > cfg.chunkSize then
      var flushed := Flush(p, source, meta);
      var overlap := OverlapTail(cfg, p.current);
      var current := if overlap != [] then [overlap, para] else [para];
      Packer(flushed, current, EstimateTokens(JoinWith(current, " ")))
    else
      Packer(p.chunks, p.current + [para], p.currentTokens + paraTokens)
  }

  function PackFrom(cfg: Config, source: string, meta: Metadata, p: Packer, paras: seq<string>): (r: Packer)
    ensures p.chunks <= r.chunks
    decreases |paras|
  {
    if paras == [] then p else PackFrom(cfg, source, meta, Step(cfg, source, meta, p, paras[0]), paras[1..])
  }

  /** What holds of the paragraph loop's state for any configuration. */
  ghost predicate PackInv(source: string, meta: Metadata, p: Packer) {
    && (forall j :: 0 <= j < |p.chunks| ==> p.chunks[j].chunkIndex == j)
    && (forall j :: 0 <= j < |p.chunks| ==> Describes(p.chunks[j], source, meta) && p.chunks[j].content != [])
    && (forall i :: 0 <= i < |p.current| ==> p.current[i] != [])
    && (p.current == [] ==> p.currentTokens == 0)
  }

  lemma FlushKeepsInv(source: string, meta: Metadata, p: Packer)
    requires PackInv(source, meta, p)
    ensures var r := Flush(p, source, meta);
            && (forall j :: 0 <= j < |r| ==> r[j].chunkIndex == j)
            && (forall j :: 0 <= j < |r| ==> Describes(r[j], source, meta) && r[j].content != [])
  {
    if p.current != [] {
      JoinNonEmpty(p.current, " ");
    }
  }

  /** A paragraph with visible text splits into at least one chunk. */
  lemma SplitOfVisibleIsNonEmpty(cfg: Config, para: string, source: string, start: nat, meta: Metadata)
    requires para != [] && StrippedOf(para, Whitespace)
    ensures SplitLargeParagraph(cfg, para, source, start, meta) != []
  {
    assert !Blank(para) by {
      assert !IsSpace(para[0]);
    }
    SentencesEmptyIffBlank(para);
  }

  /** Appending chunks numbered from `|front|` to correctly numbered chunks
      keeps every chunk numbered by its position. */
  lemma AppendNumbered(front: seq<TextChunk>, back: seq<TextChunk>, source: string, meta: Metadata)
    requires forall j :: 0 <= j < |front| ==> front[j].chunkIndex == j
    requires forall j :: 0 <= j < |front| ==> Describes(front[j], source, meta) && front[j].content != []
    requires forall j :: 0 <= j < |back| ==> back[j].chunkIndex == |front| + j
    requires forall j :: 0 <= j < |back| ==> Describes(back[j], source, meta) && back[j].content != []
    ensures var all := front + back;
            && (forall j :: 0 <= j < |all| ==> all[j].chunkIndex == j)
            && (forall j :: 0 <= j < |all| ==> Describes(all[j], source, meta) && all[j].content != [])
  {
    var all := front + back;
    forall j | 0 <= j < |all|
      ensures all[j].chunkIndex == j
      ensures Describes(all[j], source, meta) && all[j].content != []
    {
      if j >= |front| {
        assert all[j] == back[j - |front|];
      }
    }
  }

  /** The oversized branch of `Step` keeps the invariant and leaves at least
      one chunk. */
  lemma OversizedKeepsInv(cfg: Config, source: string, meta: Metadata, p: Packer, para: string)
    requires PackInv(source, meta, p) && para != [] && StrippedOf(para, Whitespace)
    ensures var flushed := Flush(p, source, meta);
            var sc := SplitLargeParagraph(cfg, para, source, |flushed|, meta);
            var q := Packer(flushed + Renumber(sc, |flushed|), [], if p.current == [] then p.currentTokens else 0);
            PackInv(source, meta, q) && q.chunks != []
  {
    FlushKeepsInv(source, meta, p);
    var flushed := Flush(p, source, meta);
    var sc := SplitLargeParagraph(cfg, para, source, |flushed|, meta);
    SplitOfVisibleIsNonEmpty(cfg, para, source, |flushed|, meta);
    AppendNumbered(flushed, Renumber(sc, |flushed|), source, meta);
  }

  /** The overflow branch of `Step` keeps the invariant and leaves a
      non-empty accumulator. */
  lemma OverflowKeepsInv(cfg: Config, source: string, meta: Metadata, p: Packer, para: string)
    requires PackInv(source, meta, p) && para != []
    ensures var overlap := OverlapTail(cfg, p.current);
            var current := if overlap != [] then [overlap, para] else [para];
            var q := Packer(Flush(p, source, meta), current, EstimateTokens(JoinWith(current, " ")));
            PackInv(source, meta, q) && q.current != []
  {
    FlushKeepsInv(source, meta, p);
  }

  lemma StepKeepsInv(cfg: Config, source: string, meta: Metadata, p: Packer, para: string)
    requires PackInv(source, meta, p) && para != [] && StrippedOf(para, Whitespace)
    ensures PackInv(source, meta, Step(cfg, source, meta, p, para))
    ensures Step(cfg, source, meta, p, para).chunks != [] || Step(cfg, source, meta, p, para).current != []
  {
    var paraTokens := EstimateTokens(para);
    if paraTokens > cfg.chunkSize {
      OversizedKeepsInv(cfg, source, meta, p, para);
    } else if p.currentTokens + paraTokens > cfg.chunkSize {
      OverflowKeepsInv(cfg, source, meta, p, para);
    }
  }

  /** Every paragraph handed to the loop is non-empty and stripped. */
  ghost predicate ValidParts(paras: seq<string>) {
    forall j :: 0 <= j < |paras| ==> paras[j] != [] && StrippedOf(paras[j], Whitespace)
  }

  lemma {:induction false} PackFromKeepsInv(cfg: Config, source: string, meta: Metadata, p: Packer, paras: seq<string>)
    requires PackInv(source, meta, p) && ValidParts(paras)
    ensures PackInv(source, meta, PackFrom(cfg, source, meta, p, paras))
    ensures paras != [] ==> PackFrom(cfg, source, meta, p, paras).chunks != []
                            || PackFrom(cfg, source, meta, p, paras).current != []
    decreases |paras|
  {
    if paras != [] {
      StepKeepsInv(cfg, source, meta, p, paras[0]);
      PackFromKeepsInv(cfg, source, meta, Step(cfg, source, meta, p, paras[0]), paras[1..]);
    }
  }

  /** The loop state before the first paragraph. */
  const Empty := Packer([], [], 0)

  /** `chunk_text`: blank text gives no chunks, any other text at least one;
      the chunks are numbered 0, 1, ... in order, each is non-empty and
      carries the caller's source, every caller metadata key and its own
      `token_count`. */
  function ChunkText(cfg: Config, text: string, source: string, metadata: Option<Metadata>)
    : (r: seq<TextChunk>)
    ensures Blank(text) ==> r == []
    ensures !Blank(text) ==> r != []
    ensures forall j :: 0 <= j < |r| ==> r[j].chunkIndex == j
    ensures forall j :: 0 <= j < |r| ==>
              Describes(r[j], source, metadata.GetOr(map[])) && r[j].content != []
  {
    if text == [] || Strip(text, Whitespace) == [] then []
    else
      var meta := metadata.GetOr(map[]);
      var paras := Paragraphs(text);
      var p := PackFrom(cfg, source, meta, Empty, paras);
      PackFromKeepsInv(cfg, source, meta, Empty, paras);
      ParagraphsEmptyIffBlank(text);
      FlushKeepsInv(source, meta, p);
      Flush(p, source, meta)
  }

  /** The chunk ids of one call are pairwise distinct. */
  lemma ChunkIdsUnique(cfg: Config, text: string, source: string, metadata: Option<Metadata>)
    ensures var r := ChunkText(cfg, text, source, metadata);
            forall i, j :: 0 <= i < j < |r| ==> r[i].Id() != r[j].Id()
  {
    var r := ChunkText(cfg, text, source, metadata);
    forall i, j | 0 <= i < j < |r|
      ensures r[i].Id() != r[j].Id()
    {
      IdsDistinct(r[i], r[j]);
    }
  }
}
