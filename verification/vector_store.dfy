/**
 `FAISSVectorStore`: an inner-product index and, position for position, the
 document payloads added with its vectors; plus saving to and loading from a
 directory of named artifacts.

 The store is a value: every operation returns the store it leaves behind.
 An operation that raises in the source returns `Failure`, and the caller
 keeps the store it had, which is what the source's state is after raising
 before any assignment.
 */
module VectorStore {
  import opened Outcomes
  import opened FlatIndex

  /** A document payload: the dictionary's `content`, `source` and
      `metadata` entries, each of which may be missing. */
  datatype Document = Document(content: Option<string>, source: Option<string>, metadata: Option<Metadata>)

  datatype Store = Store(dimension: int, storePath: string, index: Index, documents: seq<Document>)

  /** Why an operation raised: a `ValueError` from `add`, or one of the
      index's assertions on the vector width and on `k`. */
  datatype StoreError = CountMismatch | DimensionMismatch | InvalidK

  /** One search result: the stored document and its score. */
  datatype Hit = Hit(document: Document, score: real)

  const DefaultDimension := 768
  const DefaultStorePath := "data/vector_store"
  const DefaultName := "index"
  const DefaultTopK := 5

  /** The index and the documents stay in step: position `i` of the index
      holds the vector of document `i`. */
  ghost predicate Valid(s: Store) {
    Total(s.index) == |s.documents|
  }

  /** `_normalize` divides each row by its norm, which keeps its length. */
  ghost predicate KeepsLength(normalize: Vector -> Vector) {
    forall v :: |normalize(v)| == |v|
  }

  /** A new store: an empty index of the given dimension and no documents. */
  function New(dimension: int, storePath: string): (s: Store)
    ensures Valid(s) && Size(s) == 0 && Total(s.index) == 0
    ensures s.dimension == dimension && s.index.d == dimension && s.storePath == storePath
  {
    Store(dimension, storePath, EmptyIndex(dimension), [])
  }

  /** `size` */
  function Size(s: Store): (n: nat)
    ensures Valid(s) <==> n == Total(s.index)
  {
    |s.documents|
  }

  /* ---------------- add ---------------- */

  /** `add`: a count mismatch raises; nothing to add changes nothing;
      otherwise the normalised rows, which must have the index's width, are
      appended to the index and the documents after the existing ones. */
  function Add(s: Store, normalize: Vector -> Vector, embeddings: seq<Vector>, documents: seq<Document>)
    : (r: Result<Store, StoreError>)
    ensures |embeddings| != |documents| ==> r == Failure(CountMismatch)
    ensures |embeddings| == |documents| == 0 ==> r == Success(s)
    ensures |embeddings| == |documents| ==>
              (r.Success? <==> forall i :: 0 <= i < |embeddings| ==> |normalize(embeddings[i])| == s.index.d)
    ensures r.Failure? ==> r.error == CountMismatch || r.error == DimensionMismatch
    ensures r.Success? ==>
              var t := r.value;
              && t.dimension == s.dimension && t.storePath == s.storePath && t.index.d == s.index.d
              && t.documents == s.documents + documents
              && |t.index.vectors| == |s.index.vectors| + |embeddings|
              && t.index.vectors[..|s.index.vectors|] == s.index.vectors
              && (forall i :: 0 <= i < |embeddings| ==>
                    t.index.vectors[|s.index.vectors| + i] == normalize(embeddings[i]))
    ensures r.Success? && Valid(s) ==> Valid(r.value)
  {
    if |embeddings| != |documents| then Failure(CountMismatch)
    else if |embeddings| == 0 then Success(s)
    else
      var rows := seq(|embeddings|, i requires 0 <= i < |embeddings| => normalize(embeddings[i]));
      if !(forall i :: 0 <= i < |rows| ==> |rows[i]| == s.index.d) then Failure(DimensionMismatch)
      else
        assert forall i :: 0 <= i < |embeddings| ==> |normalize(embeddings[i])| == s.index.d by {
          forall i | 0 <= i < |embeddings| ensures |normalize(embeddings[i])| == s.index.d {
            assert rows[i] == normalize(embeddings[i]);
          }
        }
        var vectors := s.index.vectors + rows;
        assert forall i :: 0 <= i < |vectors| ==> |vectors[i]| == s.index.d by {
          forall i | 0 <= i < |vectors| ensures |vectors[i]| == s.index.d {
            if i >= |s.index.vectors| {
              assert vectors[i] == rows[i - |s.index.vectors|];
            }
          }
        }
        var ix: Index := RawIndex(s.index.d, vectors);
        Success(s.(index := ix, documents := s.documents + documents))
  }

  /** Adding with a length-keeping normalisation and rows of the index's
      width always succeeds and grows the store by the number of documents. */
  lemma AddGrowsSize(s: Store, normalize: Vector -> Vector, embeddings: seq<Vector>, documents: seq<Document>)
    requires KeepsLength(normalize) && Valid(s)
    requires |embeddings| == |documents|
    requires forall i :: 0 <= i < |embeddings| ==> |embeddings[i]| == s.index.d
    ensures Add(s, normalize, embeddings, documents).Success?
    ensures var t := Add(s, normalize, embeddings, documents).value;
            Valid(t) && Size(t) == Size(s) + |documents|
  {
    assert forall i :: 0 <= i < |embeddings| ==> |normalize(embeddings[i])| == |embeddings[i]|;
  }

  /* ---------------- search ---------------- */

  /** The results for ranked positions: each position that has a document
      gives that document and its score; a position past the documents is
      skipped. */
  function HitsOf(ids: seq<nat>, docs: seq<Document>, scores: seq<real>): (r: seq<Hit>)
    requires InRange(scores, ids)
    requires forall i, j :: 0 <= i < j < |ids| ==> scores[ids[i]] >= scores[ids[j]]
    ensures |r| <= |ids|
    ensures forall j :: 0 <= j < |r| ==> r[j].document in docs
    ensures ids != [] ==> forall j :: 0 <= j < |r| ==> r[j].score <= scores[ids[0]]
    ensures forall i, j :: 0 <= i < j < |r| ==> r[i].score >= r[j].score
    ensures (forall i :: 0 <= i < |ids| ==> ids[i] < |docs|) ==>
              |r| == |ids| && forall j :: 0 <= j < |r| ==> r[j] == Hit(docs[ids[j]], scores[ids[j]])
  {
    if ids == [] then []
    else
      var rest := HitsOf(ids[1..], docs, scores);
      if ids[0] < |docs| then [Hit(docs[ids[0]], scores[ids[0]])] + rest else rest
  }

  /** One position gives its document and score when it has a document, and
      nothing otherwise. */
  lemma HitsOfSingle(id: nat, docs: seq<Document>, scores: seq<real>)
    requires id < |scores|
    ensures HitsOf([id], docs, scores) == if id < |docs| then [Hit(docs[id], scores[id])] else []
  {
    assert [id][1..] == [];
  }

  /** The hits of a ranked list are those of its front followed by those of
      its back: every position with a document is kept, in ranked order, and
      a position past the documents drops only its own hit. */
  lemma {:induction false} HitsOfAppend(a: seq<nat>, b: seq<nat>, docs: seq<Document>, scores: seq<real>)
    requires InRange(scores, a) && InRange(scores, b)
    requires forall i, j :: 0 <= i < j < |a| ==> scores[a[i]] >= scores[a[j]]
    requires forall i, j :: 0 <= i < j < |b| ==> scores[b[i]] >= scores[b[j]]
    requires forall i, j :: 0 <= i < |a| && 0 <= j < |b| ==> scores[a[i]] >= scores[b[j]]
    ensures HitsOf(a + b, docs, scores) == HitsOf(a, docs, scores) + HitsOf(b, docs, scores)
    decreases |a|
  {
    if a == [] {
      assert a + b == b;
    } else {
      assert (a + b)[1..] == a[1..] + b;
      HitsOfAppend(a[1..], b, docs, scores);
    }
  }

  /** `search`: an empty index answers `[]`; otherwise the query is
      normalised, `k` is clamped to the number of vectors, and the `k`
      best-ranked positions are returned best first. A query of the wrong
      width or a clamped `k` below 1 raises. */
  function Search(s: Store, normalize: Vector -> Vector, query: Vector, topK: int)
    : (r: Result<seq<Hit>, StoreError>)
    ensures Total(s.index) == 0 ==> r == Success([])
    ensures Total(s.index) > 0 && |normalize(query)| != s.index.d ==> r == Failure(DimensionMismatch)
    ensures Total(s.index) > 0 && |normalize(query)| == s.index.d ==> (r.Success? <==> topK > 0)
    ensures r.Failure? ==> r.error == DimensionMismatch || r.error == InvalidK
    ensures r.Success? ==> |r.value| <= Total(s.index) && (Total(s.index) > 0 ==> |r.value| <= topK)
    ensures r.Success? && Valid(s) && Total(s.index) > 0 ==>
              |r.value| == (if topK < Total(s.index) then topK else Total(s.index))
    ensures r.Success? ==> forall j :: 0 <= j < |r.value| ==> r.value[j].document in s.documents
    ensures r.Success? ==> forall i, j :: 0 <= i < j < |r.value| ==> r.value[i].score >= r.value[j].score
    ensures r.Success? && Valid(s) && Total(s.index) > 0 ==>
              var scores := Scores(s.index, normalize(query));
              var top := Ranking(scores)[..|r.value|];
              forall j :: 0 <= j < |r.value| ==> r.value[j] == Hit(s.documents[top[j]], scores[top[j]])
  {
    var n := Total(s.index);
    if n == 0 then Success([])
    else
      var q := normalize(query);
      var k := if topK < n then topK else n;
      if |q| != s.index.d then Failure(DimensionMismatch)
      else if k <= 0 then Failure(InvalidK)
      else
        var scores := Scores(s.index, q);
        var ranked := Ranking(scores);
        RankedScoresDescend(scores, ranked[..k]);
        Success(HitsOf(ranked[..k], s.documents, scores))
  }

  /** No stored document left out of a search scores higher than any
      document returned. */
  lemma SearchSkipsNothingBetter(s: Store, normalize: Vector -> Vector, query: Vector, topK: int)
    requires Valid(s) && Total(s.index) > 0 && |normalize(query)| == s.index.d && topK > 0
    ensures var r := Search(s, normalize, query, topK).value;
            var scores := Scores(s.index, normalize(query));
            var top := Ranking(scores)[..|r|];
            forall b: nat, j :: b < Total(s.index) && b !in top && 0 <= j < |r| ==> scores[b] <= r[j].score
  {
    var r := Search(s, normalize, query, topK).value;
    var scores := Scores(s.index, normalize(query));
    var top := Ranking(scores)[..|r|];
    TopKAreBest(scores, |r|);
    forall b: nat, j | b < Total(s.index) && b !in top && 0 <= j < |r|
      ensures scores[b] <= r[j].score
    {
      assert top[j] in top;
      assert Before(scores, top[j], b);
    }
  }

  /* ---------------- clear, statistics ---------------- */

  /** `clear`: a fresh empty index of the store's dimension and no
      documents. */
  function Clear(s: Store): (r: Store)
    ensures Valid(r) && Size(r) == 0 && Total(r.index) == 0
    ensures r.dimension == s.dimension && r.index.d == s.dimension && r.storePath == s.storePath
  {
    s.(index := EmptyIndex(s.dimension), documents := [])
  }

  /** After `clear` every search answers `[]`. */
  lemma ClearedSearchIsEmpty(s: Store, normalize: Vector -> Vector, query: Vector, topK: int)
    ensures Search(Clear(s), normalize, query, topK) == Success([])
  {
  }

  datatype Stats = Stats(totalDocuments: nat, indexSize: nat, dimension: int, storePath: string)

  /** `get_stats` */
  function GetStats(s: Store): (r: Stats)
    ensures r.totalDocuments == Size(s) && r.dimension == s.dimension && r.storePath == s.storePath
    ensures r.indexSize == Total(s.index)
    ensures Valid(s) <==> r.totalDocuments == r.indexSize
  {
    Stats(|s.documents|, Total(s.index), s.dimension, s.storePath)
  }

  /** The two counts follow the operations: a successful add raises each by
      the rows and documents it adds, and clearing zeroes both. */
  lemma StatsFollowOperations(s: Store, normalize: Vector -> Vector, embeddings: seq<Vector>, documents: seq<Document>)
    ensures var r := Add(s, normalize, embeddings, documents);
            r.Success? ==>
              && GetStats(r.value).totalDocuments == GetStats(s).totalDocuments + |documents|
              && GetStats(r.value).indexSize == GetStats(s).indexSize + |embeddings|
    ensures GetStats(Clear(s)).totalDocuments == 0 && GetStats(Clear(s)).indexSize == 0
  {
  }

  /* ---------------- save and load ---------------- */

  /** A saved artifact: readable, or present but not readable. */
  datatype Artifact<T> = Intact(value: T) | Corrupt

  /** The pair (`store_path`, `name`) that names `name.faiss` and
      `name.pkl` under the store's directory. */
  datatype Location = Location(dir: string, name: string)

  /** The saved index files and document files. */
  datatype Disk = Disk(indexFiles: map<Location, Artifact<Index>>, docFiles: map<Location, Artifact<seq<Document>>>)

  /** `save`: writes the index and the documents under `name`, and nothing
      else. */
  function Save(s: Store, disk: Disk, name: string): (r: Disk)
    ensures var here := Location(s.storePath, name);
            && here in r.indexFiles && r.indexFiles[here] == Intact(s.index)
            && here in r.docFiles && r.docFiles[here] == Intact(s.documents)
    ensures forall l :: l != Location(s.storePath, name) ==>
              (l in r.indexFiles <==> l in disk.indexFiles)
              && (l in r.indexFiles ==> r.indexFiles[l] == disk.indexFiles[l])
    ensures forall l :: l != Location(s.storePath, name) ==>
              (l in r.docFiles <==> l in disk.docFiles)
              && (l in r.docFiles ==> r.docFiles[l] == disk.docFiles[l])
  {
    var here := Location(s.storePath, name);
    Disk(disk.indexFiles[here := Intact(s.index)], disk.docFiles[here := Intact(s.documents)])
  }

  /** `load` as the source writes it: when reading the index succeeds and
      reading the documents fails, the new index has already replaced the
      store's, and `false` is returned. */
  function LoadAsWritten(s: Store, disk: Disk, name: string): (r: (Store, bool))
    ensures var here := Location(s.storePath, name);
            here !in disk.indexFiles || here !in disk.docFiles ==> r == (s, false)
  {
    var here := Location(s.storePath, name);
    if here !in disk.indexFiles || here !in disk.docFiles then (s, false)
    else
      match disk.indexFiles[here]
      case Corrupt => (s, false)
      case Intact(ix) =>
        (match disk.docFiles[here]
         case Corrupt => (s.(index := ix), false)
         case Intact(docs) => (s.(index := ix, documents := docs), true))
  }

  /** `load` with its evident intent: it reports success exactly when both
      artifacts exist and read back, and then holds exactly what they hold;
      when it reports failure the store is unchanged. */
  function Load(s: Store, disk: Disk, name: string): (r: (Store, bool))
    ensures var here := Location(s.storePath, name);
            r.1 <==> (here in disk.indexFiles && here in disk.docFiles
                      && disk.indexFiles[here].Intact? && disk.docFiles[here].Intact?)
    ensures !r.1 ==> r.0 == s
    ensures r.1 ==>
              var here := Location(s.storePath, name);
              && r.0.dimension == s.dimension && r.0.storePath == s.storePath
              && r.0.index == disk.indexFiles[here].value
              && r.0.documents == disk.docFiles[here].value
  {
    var here := Location(s.storePath, name);
    if here !in disk.indexFiles || here !in disk.docFiles then (s, false)
    else
      match (disk.indexFiles[here], disk.docFiles[here])
      case (Intact(ix), Intact(docs)) => (s.(index := ix, documents := docs), true)
      case _ => (s, false)
  }

  /** The two agree everywhere except on an unreadable document file next to
      a readable index. */
  lemma LoadAgreesUnlessDocumentsCorrupt(s: Store, disk: Disk, name: string)
    requires var here := Location(s.storePath, name);
             !(here in disk.indexFiles && here in disk.docFiles
               && disk.indexFiles[here].Intact? && disk.docFiles[here].Corrupt?)
    ensures LoadAsWritten(s, disk, name) == Load(s, disk, name)
  {
  }

  /** A readable index next to an unreadable document file: the source's
      `load` reports failure, yet the store now holds the loaded index with
      its old documents. It is changed exactly when the loaded index differs
      from its own, and out of step unless the old documents happen to match
      the new index in number. The corrected load leaves the store as it
      was. */
  lemma FailedLoadAsWrittenKeepsIndex(s: Store, disk: Disk, name: string, ix: Index)
    requires var here := Location(s.storePath, name);
             && here in disk.indexFiles && disk.indexFiles[here] == Intact(ix)
             && here in disk.docFiles && disk.docFiles[here].Corrupt?
    ensures LoadAsWritten(s, disk, name) == (s.(index := ix), false)
    ensures LoadAsWritten(s, disk, name).0 == s <==> ix == s.index
    ensures Valid(LoadAsWritten(s, disk, name).0) <==> Total(ix) == |s.documents|
    ensures Load(s, disk, name) == (s, false)
  {
  }

  /** After such a failed load the statistics show the mismatch: the loaded
      index's size next to the old document count. */
  lemma StatsExposeFailedLoad(s: Store, disk: Disk, name: string, ix: Index)
    requires var here := Location(s.storePath, name);
             && here in disk.indexFiles && disk.indexFiles[here] == Intact(ix)
             && here in disk.docFiles && disk.docFiles[here].Corrupt?
    ensures var stats := GetStats(LoadAsWritten(s, disk, name).0);
            stats.indexSize == Total(ix) && stats.totalDocuments == |s.documents|
  {
    FailedLoadAsWrittenKeepsIndex(s, disk, name, ix);
  }

  /** For example, a new store, a saved index with one vector and an
      unreadable document file: the failed load leaves one vector and no
      document, and every search of the result skips that vector and answers
      `[]`. */
  lemma FailedLoadAsWrittenChangesStore(normalize: Vector -> Vector, query: Vector, topK: int)
    requires |normalize(query)| == 1 && topK > 0
    ensures var s := New(1, DefaultStorePath);
            var ix: Index := RawIndex(1, [[1.0]]);
            var disk := Disk(map[Location(DefaultStorePath, DefaultName) := Intact(ix)],
                             map[Location(DefaultStorePath, DefaultName) := Corrupt]);
            var r := LoadAsWritten(s, disk, DefaultName);
            && r.1 == false && r.0 != s && !Valid(r.0) && Total(r.0.index) == 1
            && Search(r.0, normalize, query, topK) == Success([])
  {
    var s := New(1, DefaultStorePath);
    var ix: Index := RawIndex(1, [[1.0]]);
    var disk := Disk(map[Location(DefaultStorePath, DefaultName) := Intact(ix)],
                     map[Location(DefaultStorePath, DefaultName) := Corrupt]);
    FailedLoadAsWrittenKeepsIndex(s, disk, DefaultName, ix);
    var r := LoadAsWritten(s, disk, DefaultName);
    assert Total(r.0.index) == 1;
    var found := Search(r.0, normalize, query, topK);
    assert found.Success? && r.0.documents == [];
  }

  /** Loading what was saved restores the saved index and documents into a
      store kept at the same place. */
  lemma SaveThenLoad(s: Store, t: Store, disk: Disk, name: string)
    requires t.storePath == s.storePath
    ensures Load(t, Save(s, disk, name), name) == (t.(index := s.index, documents := s.documents), true)
  {
  }

  /** Save, clear, load gives back the store that was saved, so its size and
      every search answer are as before. */
  lemma SaveClearLoadRestores(s: Store, disk: Disk, name: string)
    ensures var r := Load(Clear(s), Save(s, disk, name), name);
            r == (s, true) && Size(r.0) == Size(s)
  {
    SaveThenLoad(s, Clear(s), disk, name);
  }

  /* ---------------- the test's ranking scenario ---------------- */

  function Cats(): Document {
    Document(Some("Document about cats"), Some("doc1.txt"), None)
  }

  function Dogs(): Document {
    Document(Some("Document about dogs"), Some("doc2.txt"), None)
  }

  function Birds(): Document {
    Document(Some("Document about birds"), Some("doc3.txt"), None)
  }

  const TestVectors: seq<Vector> := [[1.0, 0.0, 0.0, 0.0], [0.0, 1.0, 0.0, 0.0], [0.0, 0.0, 1.0, 0.0]]
  const TestQuery: Vector := [1.0, 0.1, 0.0, 0.0]

  /** The normalisation fixes the three unit vectors and scales the query by
      `c`, as dividing by the norm does. */
  ghost predicate ScalesTestRows(normalize: Vector -> Vector, c: real) {
    && c > 0.0
    && normalize(TestVectors[0]) == TestVectors[0]
    && normalize(TestVectors[1]) == TestVectors[1]
    && normalize(TestVectors[2]) == TestVectors[2]
    && normalize(TestQuery) == [c, c * 0.1, 0.0, 0.0]
  }

  lemma TestStoreHolds(normalize: Vector -> Vector, c: real)
    requires ScalesTestRows(normalize, c)
    ensures var s := Add(New(4, "data/test_store"), normalize, TestVectors, [Cats(), Dogs(), Birds()]);
            && s.Success? && s.value.index.vectors == TestVectors && Size(s.value) == 3 && Valid(s.value)
  {
    var s := Add(New(4, "data/test_store"), normalize, TestVectors, [Cats(), Dogs(), Birds()]);
    assert forall i :: 0 <= i < |TestVectors| ==> normalize(TestVectors[i]) == TestVectors[i];
    assert s.Success?;
    assert s.value.index.vectors == [] + TestVectors;
  }

  lemma TestScores(ix: Index, q: Vector, c: real)
    requires ix.vectors == TestVectors && q == [c, c * 0.1, 0.0, 0.0] && ix.d == 4
    ensures Scores(ix, q) == [c, c * 0.1, 0.0]
  {
    DotOfFour(TestVectors[0], q);
    DotOfFour(TestVectors[1], q);
    DotOfFour(TestVectors[2], q);
  }

  lemma DotOfFour(a: Vector, b: Vector)
    requires |a| == |b| == 4
    ensures Dot(a, b) == a[0] * b[0] + a[1] * b[1] + a[2] * b[2] + a[3] * b[3]
  {
    assert Dot(a[3..], b[3..]) == a[3] * b[3] + Dot(a[4..], b[4..]);
    assert Dot(a[2..], b[2..]) == a[2] * b[2] + Dot(a[2..][1..], b[2..][1..]);
    assert a[2..][1..] == a[3..] && b[2..][1..] == b[3..];
    assert Dot(a[1..], b[1..]) == a[1] * b[1] + Dot(a[1..][1..], b[1..][1..]);
    assert a[1..][1..] == a[2..] && b[1..][1..] == b[2..];
  }

  lemma TestRanking(c: real)
    requires c > 0.0
    ensures Ranking([c, c * 0.1, 0.0]) == [0, 1, 2]
  {
    var scores := [c, c * 0.1, 0.0];
    var expected: seq<nat> := [0, 1, 2];
    assert RankedBy(scores, expected);
    RankingIsUnique(scores, expected);
  }

  lemma TestSearch(t: Store, normalize: Vector -> Vector, c: real)
    requires ScalesTestRows(normalize, c)
    requires t.index.d == 4 && t.index.vectors == TestVectors && t.documents == [Cats(), Dogs(), Birds()]
    ensures Search(t, normalize, TestQuery, 2) == Success([Hit(Cats(), c), Hit(Dogs(), c * 0.1)])
  {
    var q := normalize(TestQuery);
    TestScores(t.index, q, c);
    TestRanking(c);
    var scores := Scores(t.index, q);
    var r := Search(t, normalize, TestQuery, 2);
    assert |r.value| == 2;
    var top := Ranking(scores)[..2];
    assert top == [0, 1];
    assert r.value[0] == Hit(t.documents[top[0]], scores[top[0]]);
    assert r.value[1] == Hit(t.documents[top[1]], scores[top[1]]);
    assert r.value[0] == Hit(Cats(), c) && r.value[1] == Hit(Dogs(), c * 0.1);
    assert r.value == [Hit(Cats(), c), Hit(Dogs(), c * 0.1)];
  }

  /** Three unit vectors for cats, dogs and birds in four dimensions, and
      the query `[1, 0.1, 0, 0]`: a search for two results gives cats, then
      dogs. */
  lemma CatsRankFirst(normalize: Vector -> Vector, c: real)
    requires ScalesTestRows(normalize, c)
    ensures var s := Add(New(4, "data/test_store"), normalize, TestVectors, [Cats(), Dogs(), Birds()]);
            && s.Success? && Size(s.value) == 3
            && Search(s.value, normalize, TestQuery, 2) == Success([Hit(Cats(), c), Hit(Dogs(), c * 0.1)])
  {
    var s := Add(New(4, "data/test_store"), normalize, TestVectors, [Cats(), Dogs(), Birds()]);
    TestStoreHolds(normalize, c);
    assert s.value.documents == [Cats(), Dogs(), Birds()];
    TestSearch(s.value, normalize, c);
  }
}
