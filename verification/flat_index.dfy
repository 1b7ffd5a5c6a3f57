/**
 The exact inner-product index the vector store keeps (`IndexFlatIP`): a
 dimension and the vectors added so far, in insertion order. A search scores
 every stored vector against the query and ranks best first; equal scores
 keep insertion order.
 */
module FlatIndex {

  type Vector = seq<real>

  /** An index whose every vector has the index's dimension. */
  datatype RawIndex = RawIndex(d: int, vectors: seq<Vector>)

  type Index = ix: RawIndex | forall i :: 0 <= i < |ix.vectors| ==> |ix.vectors[i]| == ix.d
    witness RawIndex(0, [])

  /** An empty index of dimension `d`. */
  function EmptyIndex(d: int): (ix: Index)
    ensures ix.d == d && ix.vectors == []
  {
    RawIndex(d, [])
  }

  /** `index.ntotal` */
  function Total(ix: Index): nat {
    |ix.vectors|
  }

  /** The inner product. */
  function Dot(a: Vector, b: Vector): real
    requires |a| == |b|
  {
    if a == [] then 0.0 else a[0] * b[0] + Dot(a[1..], b[1..])
  }

  /** The score of every stored vector against the query, by position. */
  function Scores(ix: Index, q: Vector): (r: seq<real>)
    requires |q| == ix.d
    ensures |r| == Total(ix)
    ensures forall i :: 0 <= i < |r| ==> r[i] == Dot(ix.vectors[i], q)
  {
    seq(|ix.vectors|, i requires 0 <= i < |ix.vectors| => Dot(ix.vectors[i], q))
  }

  /* ---------------- best-first ranking ---------------- */

  /** Position `a` ranks ahead of position `b`: a higher score, or the same
      score and inserted earlier. This is a strict total order on positions. */
  predicate Before(scores: seq<real>, a: nat, b: nat)
    requires a < |scores| && b < |scores|
  {
    scores[a] > scores[b] || (scores[a] == scores[b] && a < b)
  }

  predicate InRange(scores: seq<real>, ids: seq<nat>) {
    forall i :: 0 <= i < |ids| ==> ids[i] < |scores|
  }

  /** Each position ranks ahead of every later one (so none repeats). */
  predicate RankedBy(scores: seq<real>, ids: seq<nat>)
    requires InRange(scores, ids)
  {
    forall i, j :: 0 <= i < j < |ids| ==> Before(scores, ids[i], ids[j])
  }

  /** Places a position into a ranked list. */
  function Insert(scores: seq<real>, x: nat, ids: seq<nat>): (r: seq<nat>)
    requires x < |scores| && InRange(scores, ids) && RankedBy(scores, ids) && x !in ids
    ensures InRange(scores, r) && RankedBy(scores, r)
    ensures |r| == |ids| + 1
    ensures forall y :: y in r <==> y == x || y in ids
    decreases |ids|
  {
    if ids == [] || Before(scores, x, ids[0]) then [x] + ids
    else
      var rest := Insert(scores, x, ids[1..]);
      HeadRanksFirst(scores, x, ids, rest);
      [ids[0]] + rest
  }

  /** When `x` does not rank ahead of the head of a ranked list, the head
      ranks ahead of `x` and of the rest of the list with `x` placed in it. */
  lemma HeadRanksFirst(scores: seq<real>, x: nat, ids: seq<nat>, rest: seq<nat>)
    requires x < |scores| && InRange(scores, ids) && RankedBy(scores, ids) && x !in ids
    requires ids != [] && !Before(scores, x, ids[0])
    requires InRange(scores, rest) && forall y :: y in rest <==> y == x || y in ids[1..]
    ensures forall j :: 0 <= j < |rest| ==> Before(scores, ids[0], rest[j])
  {
    forall j | 0 <= j < |rest|
      ensures Before(scores, ids[0], rest[j])
    {
      if rest[j] != x {
        assert rest[j] in ids[1..];
        var i :| 1 <= i < |ids| && ids[i] == rest[j];
        assert Before(scores, ids[0], ids[i]);
      }
    }
  }

  /** The positions `0 .. n-1`, ranked. */
  function RankFirst(scores: seq<real>, n: nat): (r: seq<nat>)
    requires n <= |scores|
    ensures InRange(scores, r) && RankedBy(scores, r)
    ensures |r| == n
    ensures forall y: nat :: y in r <==> y < n
  {
    if n == 0 then [] else Insert(scores, n - 1, RankFirst(scores, n - 1))
  }

  /** Every stored position, best first. */
  function Ranking(scores: seq<real>): (r: seq<nat>)
    ensures InRange(scores, r) && RankedBy(scores, r)
    ensures |r| == |scores|
    ensures forall y: nat :: y in r <==> y < |scores|
  {
    RankFirst(scores, |scores|)
  }

  /** The ranking is the only best-first order of the positions: any list
      that holds every position and is ranked by `Before` is it. */
  lemma RankingIsUnique(scores: seq<real>, other: seq<nat>)
    requires InRange(scores, other) && RankedBy(scores, other)
    requires forall y: nat :: y in other <==> y < |scores|
    ensures other == Ranking(scores)
  {
    SameRankedEqual(scores, other, Ranking(scores));
  }

  lemma {:induction false} SameRankedEqual(scores: seq<real>, a: seq<nat>, b: seq<nat>)
    requires InRange(scores, a) && RankedBy(scores, a)
    requires InRange(scores, b) && RankedBy(scores, b)
    requires forall y :: y in a <==> y in b
    ensures a == b
    decreases |a|
  {
    if a == [] {
      assert forall i :: 0 <= i < |b| ==> b[i] in a;
      assert |b| == 0;
    } else {
      assert a[0] in b;
      assert b[0] in a;
      assert a[0] == b[0];
      forall y ensures y in a[1..] <==> y in b[1..] {
        if y in a[1..] {
          var i :| 1 <= i < |a| && a[i] == y;
          assert Before(scores, a[0], a[i]);
          assert y in b;
        }
        if y in b[1..] {
          var i :| 1 <= i < |b| && b[i] == y;
          assert Before(scores, b[0], b[i]);
          assert y in a;
        }
      }
      SameRankedEqual(scores, a[1..], b[1..]);
      assert a == [a[0]] + a[1..] && b == [b[0]] + b[1..];
    }
  }

  /** The first `k` ranked positions beat every other position. */
  lemma TopKAreBest(scores: seq<real>, k: nat)
    requires k <= |scores|
    ensures var top := Ranking(scores)[..k];
            forall a: nat, b: nat :: a in top && b < |scores| && b !in top ==> Before(scores, a, b)
  {
    var r := Ranking(scores);
    var top := r[..k];
    forall a: nat, b: nat | a in top && b < |scores| && b !in top
      ensures Before(scores, a, b)
    {
      var i :| 0 <= i < k && r[i] == a;
      assert b in r;
      var j :| 0 <= j < |r| && r[j] == b;
      if j < k {
        assert false;
      }
    }
  }

  /** Scores taken along a ranked list never increase. */
  lemma RankedScoresDescend(scores: seq<real>, ids: seq<nat>)
    requires InRange(scores, ids) && RankedBy(scores, ids)
    ensures forall i, j :: 0 <= i < j < |ids| ==> scores[ids[i]] >= scores[ids[j]]
  {
    forall i, j | 0 <= i < j < |ids|
      ensures scores[ids[i]] >= scores[ids[j]]
    {
      assert Before(scores, ids[i], ids[j]);
    }
  }
}
