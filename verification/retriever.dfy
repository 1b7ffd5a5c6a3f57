/**
 `RAGRetriever`: embeds a query, searches the vector store, keeps the results
 that reach the score threshold, and assembles a token-budgeted context from
 them.

 The embedding service is a parameter `embed` that may fail (`None`), the
 store's normalisation is the parameter `normalize`, and the two-decimal
 rendering of a score (`{score:.2f}`) is the parameter `render`.
 */
module Retriever {
  import opened Outcomes
  import opened Text
  import opened FlatIndex
  import opened VectorStore

  datatype Config = Config(topK: int, scoreThreshold: real)

  const DefaultConfig := Config(5, 0.3)
  const DefaultMaxTokens := 3000

  /** A result as `retrieve` hands it on. */
  datatype Retrieved = Retrieved(content: string, source: string, score: real, metadata: Metadata)

  /** `top_k or self.top_k`: a missing or zero override falls back to the
      configured value. */
  function EffectiveK(cfg: Config, topK: Option<int>): (k: int)
    ensures topK.Some? && topK.value != 0 ==> k == topK.value
    ensures topK.None? || topK.value == 0 ==> k == cfg.topK
  {
    match topK
    case Some(k) => if k != 0 then k else cfg.topK
    case None => cfg.topK
  }

  /** The dictionary built for one kept search hit, with the source's
      defaults for missing entries. */
  function ToRetrieved(h: Hit): (r: Retrieved)
    ensures r.score == h.score
    ensures h.document.content.Some? ==> r.content == h.document.content.value
    ensures h.document.content.None? ==> r.content == ""
    ensures h.document.source.Some? ==> r.source == h.document.source.value
    ensures h.document.source.None? ==> r.source == "unknown"
    ensures h.document.metadata.Some? ==> r.metadata == h.document.metadata.value
    ensures h.document.metadata.None? ==> r.metadata == map[]
  {
    Retrieved(h.document.content.GetOr(""), h.document.source.GetOr("unknown"), h.score,
              h.document.metadata.GetOr(map[]))
  }

  predicate Descending(hits: seq<Hit>) {
    forall i, j :: 0 <= i < j < |hits| ==> hits[i].score >= hits[j].score
  }

  predicate DescendingResults(rs: seq<Retrieved>) {
    forall i, j :: 0 <= i < j < |rs| ==> rs[i].score >= rs[j].score
  }

  /** The threshold filter of `retrieve`, in order. */
  function ThresholdFilter(hits: seq<Hit>, threshold: real): (r: seq<Retrieved>)
    ensures |r| <= |hits|
    ensures forall j :: 0 <= j < |r| ==> r[j].score >= threshold
    ensures forall h :: h in hits && h.score >= threshold ==> ToRetrieved(h) in r
    ensures Descending(hits) && hits != [] ==> forall j :: 0 <= j < |r| ==> r[j].score <= hits[0].score
    ensures Descending(hits) ==> DescendingResults(r)
  {
    KeptHoldsEveryHit(hits, threshold);
    KeptFollowsOrder(hits, threshold);
    Kept(hits, threshold)
  }

  /** The list comprehension of `retrieve`: one result per hit that reaches
      the threshold, in the order of the hits. */
  function Kept(hits: seq<Hit>, threshold: real): (r: seq<Retrieved>)
    ensures |r| <= |hits|
    ensures forall j :: 0 <= j < |r| ==> r[j].score >= threshold
  {
    if hits == [] then []
    else if hits[0].score >= threshold then [ToRetrieved(hits[0])] + Kept(hits[1..], threshold)
    else Kept(hits[1..], threshold)
  }

  lemma {:induction false} KeptHoldsEveryHit(hits: seq<Hit>, threshold: real)
    ensures forall h :: h in hits && h.score >= threshold ==> ToRetrieved(h) in Kept(hits, threshold)
    decreases |hits|
  {
    if hits != [] {
      KeptHoldsEveryHit(hits[1..], threshold);
      var r := Kept(hits, threshold);
      forall h | h in hits && h.score >= threshold ensures ToRetrieved(h) in r {
        if h != hits[0] {
          assert h in hits[1..];
        }
      }
    }
  }

  lemma {:induction false} KeptFollowsOrder(hits: seq<Hit>, threshold: real)
    ensures Descending(hits) && hits != [] ==>
              forall j :: 0 <= j < |Kept(hits, threshold)| ==> Kept(hits, threshold)[j].score <= hits[0].score
    ensures Descending(hits) ==> DescendingResults(Kept(hits, threshold))
    decreases |hits|
  {
    if hits != [] && Descending(hits) {
      var rest := Kept(hits[1..], threshold);
      assert Descending(hits[1..]);
      KeptFollowsOrder(hits[1..], threshold);
      assert forall j :: 0 <= j < |rest| ==> rest[j].score <= hits[0].score by {
        if |hits| > 1 {
          assert hits[0].score >= hits[1].score;
        }
      }
      if hits[0].score >= threshold {
        ConsKeepsDescending(ToRetrieved(hits[0]), rest);
      }
    }
  }

  /** A result no lower than any of a descending list can go in front. */
  lemma ConsKeepsDescending(x: Retrieved, rest: seq<Retrieved>)
    ensures DescendingResults(rest) && (forall j :: 0 <= j < |rest| ==> rest[j].score <= x.score)
            ==> DescendingResults([x] + rest)
  {
  }

  /** The filter keeps a single hit exactly when it reaches the threshold. */
  lemma FilterSingle(h: Hit, threshold: real)
    ensures ThresholdFilter([h], threshold) == if h.score >= threshold then [ToRetrieved(h)] else []
  {
    assert [h][1..] == [];
  }

  /** Filtering distributes over concatenation: the kept results of a list
      are those of its front followed by those of its back, so the filter
      keeps the order of the search results. */
  lemma FilterAppend(a: seq<Hit>, b: seq<Hit>, threshold: real)
    ensures ThresholdFilter(a + b, threshold) == ThresholdFilter(a, threshold) + ThresholdFilter(b, threshold)
  {
    KeptAppend(a, b, threshold);
  }

  lemma {:induction false} KeptAppend(a: seq<Hit>, b: seq<Hit>, threshold: real)
    ensures Kept(a + b, threshold) == Kept(a, threshold) + Kept(b, threshold)
    decreases |a|
  {
    if a == [] {
      assert a + b == b;
    } else {
      assert (a + b)[1..] == a[1..] + b;
      KeptAppend(a[1..], b, threshold);
    }
  }

  /** `retrieve`: a blank query returns `[]` at once; otherwise the query is
      embedded and searched with the effective `k`, a failure of either
      gives `[]`, and the hits that reach the threshold are returned best
      first. */
  function Retrieve(cfg: Config, store: Store, normalize: Vector -> Vector, embed: string -> Option<Vector>,
                    query: string, topK: Option<int>): (r: seq<Retrieved>)
    ensures Blank(query) ==> r == []
    ensures !Blank(query) && embed(query).None? ==> r == []
    ensures !Blank(query) && embed(query).Some? ==>
              var found := Search(store, normalize, embed(query).value, EffectiveK(cfg, topK));
              && (found.Failure? ==> r == [])
              && (found.Success? ==> r == ThresholdFilter(found.value, cfg.scoreThreshold))
    ensures |r| <= Total(store.index)
    ensures r != [] ==> |r| <= EffectiveK(cfg, topK)
    ensures forall j :: 0 <= j < |r| ==> r[j].score >= cfg.scoreThreshold
    ensures DescendingResults(r)
  {
    if query == [] || Strip(query, Whitespace) == [] then []
    else
      var k := EffectiveK(cfg, topK);
      match embed(query)
      case None => []
      case Some(v) =>
        match Search(store, normalize, v, k)
        case Failure(_) => []
        case Success(hits) => ThresholdFilter(hits, cfg.scoreThreshold)
  }

  /** A blank query never reaches the embedder: the answer is the same for
      every embedder and every store. */
  lemma BlankQueryIgnoresEmbedder(cfg: Config, s1: Store, s2: Store, normalize: Vector -> Vector,
                                  e1: string -> Option<Vector>, e2: string -> Option<Vector>,
                                  query: string, topK: Option<int>)
    requires Blank(query)
    ensures Retrieve(cfg, s1, normalize, e1, query, topK) == Retrieve(cfg, s2, normalize, e2, query, topK) == []
  {
  }

  /* ---------------- format_context ---------------- */

  const NoResults := "No relevant information found in the knowledge base."
  const BlockSeparator := "\n---\n"

  /** The context block for the `i`-th result (numbered from 1). */
  function Block(i: nat, r: Retrieved, render: real -> string): (b: string)
    ensures |b| > |r.content| + |r.source|
    ensures b[0] == '\n' && b[|b| - 1] == '\n'
  {
    "\n[Source " + NatToString(i) + ": " + r.source + "]\nRelevance: " + render(r.score)
    + "\nContent: " + r.content + "\n"
  }

  /** The blocks of all results, numbered from 1. */
  function Blocks(results: seq<Retrieved>, render: real -> string): (bs: seq<string>)
    ensures |bs| == |results|
    ensures forall j :: 0 <= j < |bs| ==> bs[j] == Block(j + 1, results[j], render)
  {
    seq(|results|, j requires 0 <= j < |results| => Block(j + 1, results[j], render))
  }

  /** How many leading blocks the loop keeps: it adds blocks while the
      running token total stays within the budget and stops at the first
      block that would exceed it. */
  function CountWithin(blocks: seq<string>, budget: int): (n: nat)
    ensures n <= |blocks|
    ensures n > 0 ==> TokenSum(blocks[..n]) <= budget
    ensures n < |blocks| ==> TokenSum(blocks[..n + 1]) > budget
    decreases |blocks|
  {
    if blocks == [] || EstimateTokens(blocks[0]) > budget then
      assert blocks != [] ==> TokenSum(blocks[..1]) == EstimateTokens(blocks[0]) by {
        if blocks != [] {
          assert blocks[..1][1..] == [];
        }
      }
      0
    else
      var m := CountWithin(blocks[1..], budget - EstimateTokens(blocks[0]));
      assert blocks[..m + 1][1..] == blocks[1..][..m];
      assert m < |blocks[1..]| ==> blocks[..m + 2][1..] == blocks[1..][..m + 1];
      1 + m
  }

  lemma {:induction false} TokenSumOfPrefixGrows(blocks: seq<string>, m: nat, n: nat)
    requires m <= n <= |blocks|
    ensures TokenSum(blocks[..m]) <= TokenSum(blocks[..n])
    decreases n - m
  {
    if m < n {
      TokenSumOfPrefixGrows(blocks, m, n - 1);
      assert blocks[..n] == blocks[..n - 1] + [blocks[n - 1]];
      TokenSumAppend(blocks[..n - 1], blocks[n - 1]);
    }
  }

  /** The kept blocks are the longest prefix within the budget: every
      longer prefix exceeds it. */
  lemma KeptIsLongestFit(blocks: seq<string>, budget: int)
    ensures var n := CountWithin(blocks, budget);
            forall m :: n < m <= |blocks| ==> TokenSum(blocks[..m]) > budget
  {
    var n := CountWithin(blocks, budget);
    forall m | n < m <= |blocks|
      ensures TokenSum(blocks[..m]) > budget
    {
      TokenSumOfPrefixGrows(blocks, n + 1, m);
    }
  }

  /** The blocks `format_context` keeps: a prefix of the results' blocks
      within the token budget, cut at the first block that would exceed
      it. */
  function IncludedBlocks(results: seq<Retrieved>, maxTokens: int, render: real -> string): (b: seq<string>)
    ensures b <= Blocks(results, render)
    ensures b != [] ==> TokenSum(b) <= maxTokens
    ensures |b| < |results| ==> TokenSum(b) + EstimateTokens(Blocks(results, render)[|b|]) > maxTokens
  {
    var blocks := Blocks(results, render);
    var n := CountWithin(blocks, maxTokens);
    assert n < |blocks| ==> TokenSum(blocks[..n]) + EstimateTokens(blocks[n]) > maxTokens by {
      if n < |blocks| {
        TakeOneMore(blocks, n);
        TokenSumAppend(blocks[..n], blocks[n]);
      }
    }
    blocks[..n]
  }

  /** `format_context`: the fixed message when there are no results,
      otherwise the kept blocks joined by `\n---\n`. */
  function FormatContext(results: seq<Retrieved>, maxTokens: int, render: real -> string): (r: string)
    ensures results == [] ==> r == NoResults
    ensures results != [] ==> r == JoinWith(IncludedBlocks(results, maxTokens, render), BlockSeparator)
    ensures results != [] ==> r == [] || r[0] == '\n'
  {
    if results == [] then NoResults
    else
      var b := IncludedBlocks(results, maxTokens, render);
      JoinedBlocksLead(b);
      JoinWith(b, BlockSeparator)
  }

  /** A non-empty join of blocks begins with the first block's leading
      newline. */
  lemma JoinedBlocksLead(b: seq<string>)
    requires forall j :: 0 <= j < |b| ==> b[j] != [] && b[j][0] == '\n'
    ensures var joined := JoinWith(b, BlockSeparator);
            joined == [] || joined[0] == '\n'
  {
  }

  /** Results whose first block alone exceeds the budget give an empty
      context, not the no-results message. */
  lemma OverBudgetFirstBlockGivesEmpty(results: seq<Retrieved>, maxTokens: int, render: real -> string)
    requires results != [] && EstimateTokens(Block(1, results[0], render)) > maxTokens
    ensures FormatContext(results, maxTokens, render) == ""
  {
    var blocks := Blocks(results, render);
    assert blocks[..1] == [blocks[0]];
    assert TokenSum(blocks[..1]) == EstimateTokens(blocks[0]) by {
      assert blocks[..1][1..] == [];
    }
  }

  /** `retrieve_and_format`: the context for the retrieved results, and the
      results themselves. */
  function RetrieveAndFormat(cfg: Config, store: Store, normalize: Vector -> Vector,
                             embed: string -> Option<Vector>, query: string, topK: Option<int>,
                             maxTokens: int, render: real -> string): (r: (string, seq<Retrieved>))
    ensures r.1 == Retrieve(cfg, store, normalize, embed, query, topK)
    ensures r.0 == FormatContext(r.1, maxTokens, render)
    ensures Blank(query) ==> r == (NoResults, [])
    ensures r.1 == [] ==> r.0 == NoResults
    ensures r.1 != [] ==> r.0 == [] || r.0[0] == '\n'
  {
    var results := Retrieve(cfg, store, normalize, embed, query, topK);
    (FormatContext(results, maxTokens, render), results)
  }
}
