/**
 Properties of `chunk_text` that relate consecutive chunks to each other and
 the chunks to the text they came from.
 */
module ChunkerProperties {
  import opened Outcomes
  import opened Text
  import opened Segmentation
  import opened Chunker

  /* ---------------- an oversized paragraph ---------------- */

  function Contents(cs: seq<TextChunk>): (r: seq<string>)
    ensures |r| == |cs|
    ensures forall j :: 0 <= j < |cs| ==> r[j] == cs[j].content
  {
    seq(|cs|, j requires 0 <= j < |cs| => cs[j].content)
  }

  lemma ContentsAppend(a: seq<TextChunk>, b: seq<TextChunk>)
    ensures Contents(a + b) == Contents(a) + Contents(b)
  {
  }

  /** Joining each group and concatenating keeps the visible text of the
      groups' parts. */
  lemma {:induction false} VisibleOfJoinedGroups(gs: seq<seq<string>>)
    ensures Visible(Concat(seq(|gs|, j requires 0 <= j < |gs| => JoinWith(gs[j], " "))))
            == Visible(Concat(Concat(gs)))
    decreases |gs|
  {
    var joined := seq(|gs|, j requires 0 <= j < |gs| => JoinWith(gs[j], " "));
    if gs != [] {
      var rest := seq(|gs| - 1, j requires 0 <= j < |gs| - 1 => JoinWith(gs[1..][j], " "));
      assert joined[1..] == rest;
      VisibleOfJoinedGroups(gs[1..]);
      ConcatOfAppend(gs[0], Concat(gs[1..]));
      VisibleAppend(JoinWith(gs[0], " "), Concat(rest));
      VisibleAppend(Concat(gs[0]), Concat(Concat(gs[1..])));
      VisibleOfSpaceJoin(gs[0]);
    }
  }

  /** The chunks cut from an oversized paragraph hold exactly its text: every
      non-whitespace character of the paragraph, in order, and nothing else. */
  lemma SplitLargeParagraphKeepsText(cfg: Config, para: string, source: string, start: nat, meta: Metadata)
    ensures Visible(Concat(Contents(SplitLargeParagraph(cfg, para, source, start, meta)))) == Visible(para)
  {
    var groups := PackSentences(cfg, Sentences(para));
    var r := SplitLargeParagraph(cfg, para, source, start, meta);
    assert Contents(r) == seq(|groups|, j requires 0 <= j < |groups| => JoinWith(groups[j], " "));
    VisibleOfJoinedGroups(groups);
    SplitKeepsVisible(SentenceEnd, para);
  }

  /** A paragraph over the budget first turns whatever was accumulated into a
      chunk of its own, then emits chunks that hold exactly the paragraph's
      text, and leaves the accumulator empty: no overlap flows into or out of
      sentence packing. */
  lemma OversizedParagraphIsIsolated(cfg: Config, source: string, meta: Metadata, p: Packer, para: string)
    requires EstimateTokens(para) > cfg.chunkSize
    ensures var r := Step(cfg, source, meta, p, para);
            var flushed := Flush(p, source, meta);
            && r.current == []
            && flushed <= r.chunks
            && Visible(Concat(Contents(r.chunks[|flushed|..]))) == Visible(para)
  {
    var r := Step(cfg, source, meta, p, para);
    var flushed := Flush(p, source, meta);
    var sc := SplitLargeParagraph(cfg, para, source, |flushed|, meta);
    assert r.chunks[|flushed|..] == Renumber(sc, |flushed|);
    assert Contents(Renumber(sc, |flushed|)) == Contents(sc);
    SplitLargeParagraphKeepsText(cfg, para, source, |flushed|, meta);
  }

  /* ---------------- the overlap chain ---------------- */

  /** Every chunk after the first begins with the tail of the chunk before
      it, and the accumulator begins with the tail of the last chunk. */
  ghost predicate Linked(cfg: Config, p: Packer) {
    && (forall j :: 0 < j < |p.chunks| ==> CharTail(cfg, p.chunks[j - 1].content) <= p.chunks[j].content)
    && (p.chunks != [] ==>
          && p.current != []
          && CharTail(cfg, p.chunks[|p.chunks| - 1].content) <= JoinWith(p.current, " "))
  }

  lemma FlushKeepsLinked(cfg: Config, source: string, meta: Metadata, p: Packer)
    requires Linked(cfg, p)
    ensures var r := Flush(p, source, meta);
            forall j :: 0 < j < |r| ==> CharTail(cfg, r[j - 1].content) <= r[j].content
  {
  }

  /** Closing a chunk and seeding the accumulator with its tail keeps the
      chain. */
  lemma OverflowKeepsLinked(cfg: Config, source: string, meta: Metadata, p: Packer, para: string)
    requires Linked(cfg, p) && p.current != []
    ensures var overlap := OverlapTail(cfg, p.current);
            var current := if overlap != [] then [overlap, para] else [para];
            Linked(cfg, Packer(Flush(p, source, meta), current, EstimateTokens(JoinWith(current, " "))))
  {
    var flushed := Flush(p, source, meta);
    FlushKeepsLinked(cfg, source, meta, p);
    var overlap := OverlapTail(cfg, p.current);
    assert flushed[|flushed| - 1].content == JoinWith(p.current, " ");
  }

  lemma PrefixOfExtension(t: string, u: string, x: string)
    requires t <= u
    ensures t <= u + x
  {
    assert (u + x)[..|t|] == u[..|t|];
  }

  /** Adding a paragraph to a non-empty accumulator only extends its text. */
  lemma AppendKeepsLinked(cfg: Config, p: Packer, para: string, tokens: int)
    requires Linked(cfg, p)
    ensures Linked(cfg, Packer(p.chunks, p.current + [para], tokens))
  {
    if p.chunks != [] {
      var joined := JoinWith(p.current, " ");
      JoinAppend(p.current, para, " ");
      PrefixOfExtension(CharTail(cfg, p.chunks[|p.chunks| - 1].content), joined, " " + para);
      assert joined + " " + para == joined + (" " + para);
    }
  }

  /** A paragraph that overflows a non-empty accumulator turns the
      accumulator into the next chunk, and the new accumulator begins with
      that chunk's overlap tail and ends with the paragraph. */
  lemma OverflowFlushesAndSeeds(cfg: Config, source: string, meta: Metadata, p: Packer, para: string)
    requires p.current != []
    requires EstimateTokens(para) <= cfg.chunkSize < p.currentTokens + EstimateTokens(para)
    ensures var q := Step(cfg, source, meta, p, para);
            && q.chunks == p.chunks + [CreateChunk(p.current, source, |p.chunks|, meta)]
            && CharTail(cfg, q.chunks[|p.chunks|].content) <= JoinWith(q.current, " ")
            && q.current[|q.current| - 1] == para
  {
    var overlap := OverlapTail(cfg, p.current);
    var current := if overlap != [] then [overlap, para] else [para];
    assert Step(cfg, source, meta, p, para)
        == Packer(Flush(p, source, meta), current, EstimateTokens(JoinWith(current, " ")));
  }

  lemma OverflowStepKeepsLinked(cfg: Config, source: string, meta: Metadata, p: Packer, para: string)
    requires Linked(cfg, p) && p.current != []
    requires EstimateTokens(para) <= cfg.chunkSize < p.currentTokens + EstimateTokens(para)
    ensures Linked(cfg, Step(cfg, source, meta, p, para))
  {
    var overlap := OverlapTail(cfg, p.current);
    var current := if overlap != [] then [overlap, para] else [para];
    assert Step(cfg, source, meta, p, para)
        == Packer(Flush(p, source, meta), current, EstimateTokens(JoinWith(current, " ")));
    OverflowKeepsLinked(cfg, source, meta, p, para);
  }

  lemma AppendStepKeepsLinked(cfg: Config, source: string, meta: Metadata, p: Packer, para: string)
    requires Linked(cfg, p)
    requires EstimateTokens(para) <= cfg.chunkSize && p.currentTokens + EstimateTokens(para) <= cfg.chunkSize
    ensures Linked(cfg, Step(cfg, source, meta, p, para))
  {
    var tokens := p.currentTokens + EstimateTokens(para);
    assert Step(cfg, source, meta, p, para) == Packer(p.chunks, p.current + [para], tokens);
    AppendKeepsLinked(cfg, p, para, tokens);
  }

  lemma StepKeepsLinked(cfg: Config, source: string, meta: Metadata, p: Packer, para: string)
    requires Linked(cfg, p) && (p.current == [] ==> p.currentTokens == 0)
    requires EstimateTokens(para) <= cfg.chunkSize
    ensures Linked(cfg, Step(cfg, source, meta, p, para))
  {
    if p.currentTokens + EstimateTokens(para) > cfg.chunkSize {
      OverflowStepKeepsLinked(cfg, source, meta, p, para);
    } else {
      AppendStepKeepsLinked(cfg, source, meta, p, para);
    }
  }

  lemma {:induction false} PackFromKeepsLinked(cfg: Config, source: string, meta: Metadata, p: Packer, paras: seq<string>)
    requires PackInv(source, meta, p) && Linked(cfg, p) && ValidParts(paras)
    requires forall j :: 0 <= j < |paras| ==> EstimateTokens(paras[j]) <= cfg.chunkSize
    ensures Linked(cfg, PackFrom(cfg, source, meta, p, paras))
    decreases |paras|
  {
    if paras != [] {
      StepKeepsInv(cfg, source, meta, p, paras[0]);
      StepKeepsLinked(cfg, source, meta, p, paras[0]);
      PackFromKeepsLinked(cfg, source, meta, Step(cfg, source, meta, p, paras[0]), paras[1..]);
    }
  }

  /** When no paragraph exceeds the budget, every chunk after the first
      begins with the overlap tail of the chunk before it (for a positive
      overlap, its last `chunk_overlap * 4` characters). */
  lemma ChunksBeginWithOverlap(cfg: Config, text: string, source: string, metadata: Option<Metadata>)
    requires forall j :: 0 <= j < |Paragraphs(text)| ==> EstimateTokens(Paragraphs(text)[j]) <= cfg.chunkSize
    ensures var r := ChunkText(cfg, text, source, metadata);
            forall j :: 0 < j < |r| ==> CharTail(cfg, r[j - 1].content) <= r[j].content
  {
    if !(text == [] || Strip(text, Whitespace) == []) {
      var meta := metadata.GetOr(map[]);
      var paras := Paragraphs(text);
      PackFromKeepsLinked(cfg, source, meta, Empty, paras);
      FlushKeepsLinked(cfg, source, meta, PackFrom(cfg, source, meta, Empty, paras));
    }
  }

  /* ---------------- without overlap the chunks partition the text ---------------- */

  /** The visible text held by the loop state: the emitted chunks, then the
      accumulator. */
  ghost function Held(p: Packer): string {
    Visible(Concat(Contents(p.chunks))) + Visible(JoinWith(p.current, " "))
  }

  /** The emitted chunks followed by the accumulator hold exactly the text of
      the paragraphs seen so far. */
  ghost predicate Conserves(p: Packer, seen: seq<string>) {
    Held(p) == Visible(Concat(seen))
  }

  /** Flushing moves the accumulator's text into the chunks. */
  lemma FlushConserves(source: string, meta: Metadata, p: Packer)
    ensures Visible(Concat(Contents(Flush(p, source, meta)))) == Held(p)
  {
    var f := Flush(p, source, meta);
    if p.current == [] {
      assert Visible(JoinWith(p.current, " ")) == [];
    } else {
      assert Contents(f) == Contents(p.chunks) + [JoinWith(p.current, " ")];
      ConcatAppend(Contents(p.chunks), JoinWith(p.current, " "));
      VisibleAppend(Concat(Contents(p.chunks)), JoinWith(p.current, " "));
    }
  }

  lemma VisibleOfSeenAppend(seen: seq<string>, para: string)
    ensures Visible(Concat(seen + [para])) == Visible(Concat(seen)) + Visible(para)
  {
    ConcatAppend(seen, para);
    VisibleAppend(Concat(seen), para);
  }

  lemma OversizedStepHolds(cfg: Config, source: string, meta: Metadata, p: Packer, para: string)
    requires EstimateTokens(para) > cfg.chunkSize
    ensures Held(Step(cfg, source, meta, p, para)) == Held(p) + Visible(para)
  {
    var flushed := Flush(p, source, meta);
    var sc := SplitLargeParagraph(cfg, para, source, |flushed|, meta);
    var rn := Renumber(sc, |flushed|);
    var r := Step(cfg, source, meta, p, para);
    assert r.chunks == flushed + rn && r.current == [];
    FlushConserves(source, meta, p);
    ContentsAppend(flushed, rn);
    assert Contents(rn) == Contents(sc);
    ConcatOfAppend(Contents(flushed), Contents(sc));
    VisibleAppend(Concat(Contents(flushed)), Concat(Contents(sc)));
    SplitLargeParagraphKeepsText(cfg, para, source, |flushed|, meta);
    assert Visible(JoinWith(r.current, " ")) == [];
  }

  lemma OverflowStepHolds(cfg: Config, source: string, meta: Metadata, p: Packer, para: string)
    requires cfg.chunkOverlap <= 0
    requires EstimateTokens(para) <= cfg.chunkSize < p.currentTokens + EstimateTokens(para)
    ensures Held(Step(cfg, source, meta, p, para)) == Held(p) + Visible(para)
  {
    var flushed := Flush(p, source, meta);
    var r := Step(cfg, source, meta, p, para);
    assert OverlapTail(cfg, p.current) == [];
    assert r.chunks == flushed && r.current == [para];
    FlushConserves(source, meta, p);
  }

  lemma AppendStepHolds(cfg: Config, source: string, meta: Metadata, p: Packer, para: string)
    requires p.currentTokens + EstimateTokens(para) <= cfg.chunkSize
    requires EstimateTokens(para) <= cfg.chunkSize
    ensures Held(Step(cfg, source, meta, p, para)) == Held(p) + Visible(para)
  {
    var r := Step(cfg, source, meta, p, para);
    assert r.chunks == p.chunks && r.current == p.current + [para];
    VisibleOfJoinAppend(p.current, para);
  }

  lemma StepConserves(cfg: Config, source: string, meta: Metadata, p: Packer, seen: seq<string>, para: string)
    requires cfg.chunkOverlap <= 0
    requires Conserves(p, seen)
    ensures Conserves(Step(cfg, source, meta, p, para), seen + [para])
  {
    VisibleOfSeenAppend(seen, para);
    var paraTokens := EstimateTokens(para);
    if paraTokens > cfg.chunkSize {
      OversizedStepHolds(cfg, source, meta, p, para);
    } else if p.currentTokens + paraTokens > cfg.chunkSize {
      OverflowStepHolds(cfg, source, meta, p, para);
    } else {
      AppendStepHolds(cfg, source, meta, p, para);
    }
  }

  lemma {:induction false} PackFromConserves(cfg: Config, source: string, meta: Metadata, p: Packer,
                                             seen: seq<string>, paras: seq<string>)
    requires cfg.chunkOverlap <= 0
    requires Conserves(p, seen)
    ensures Conserves(PackFrom(cfg, source, meta, p, paras), seen + paras)
    decreases |paras|
  {
    if paras == [] {
      assert seen + paras == seen;
    } else {
      var seen', q := seen + [paras[0]], Step(cfg, source, meta, p, paras[0]);
      assert seen' + paras[1..] == seen + paras;
      assert PackFrom(cfg, source, meta, p, paras) == PackFrom(cfg, source, meta, q, paras[1..]);
      StepConserves(cfg, source, meta, p, seen, paras[0]);
      assert Conserves(q, seen');
      PackFromConserves(cfg, source, meta, q, seen', paras[1..]);
    }
  }

  /** Without overlap the chunks partition the text: their contents, in
      order, hold every non-whitespace character of the text exactly once. */
  lemma ChunksPartitionTextWithoutOverlap(cfg: Config, text: string, source: string, metadata: Option<Metadata>)
    requires cfg.chunkOverlap <= 0
    ensures Visible(Concat(Contents(ChunkText(cfg, text, source, metadata)))) == Visible(text)
  {
    if text == [] || Strip(text, Whitespace) == [] {
      VisibleOfBlank(text);
    } else {
      var meta := metadata.GetOr(map[]);
      var paras := Paragraphs(text);
      assert Conserves(Empty, []);
      PackFromConserves(cfg, source, meta, Empty, [], paras);
      assert [] + paras == paras;
      var p := PackFrom(cfg, source, meta, Empty, paras);
      FlushConserves(source, meta, p);
      SplitKeepsVisible(BlankLine, text);
    }
  }
}
