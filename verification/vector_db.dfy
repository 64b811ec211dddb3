/**
 * The document store `VectorDB` of core/vector_db.py.
 *
 * The store keeps a map of documents and a map of chunks, both keyed by the
 * decimal string of a counter, and an append-only index of embedding
 * vectors. Every chunk records the position of its vector in the index.
 * Deleting a document rebuilds the index from the surviving vectors, in
 * ascending position order, and renumbers every surviving chunk's position to
 * its rank among the surviving positions.
 *
 * The vector search itself (an L2 nearest-neighbour search inside FAISS) is
 * not modelled: `Search` receives its `(distance, position)` pairs as input.
 */
module VectorDb {
  import opened Wrappers
  import opened PyStr

  /** An embedding vector. */
  type Vector = seq<real>

  /**
   * A document record. `chunkIds` is `None` for a document whose vectors
   * could not be added: the source stores the record before adding the
   * vectors and sets `chunk_ids` only afterwards.
   */
  datatype Document = Document(title: string, filePath: string, chunkCount: nat, chunkIds: Option<seq<string>>)

  /** A chunk record: its document, its rank in that document, the position of its vector and a preview of its text. */
  datatype Chunk = Chunk(docId: string, index: nat, vectorIndex: nat, text: string)

  /** One `(distance, position)` pair of a FAISS search; position -1 means "no result". */
  datatype Hit = Hit(distance: real, idx: int)

  /** One entry of the list `search` returns. */
  datatype SearchResult = SearchResult(
    chunkId: string, docId: string, docTitle: string, chunkIndex: nat,
    similarity: real, distance: real, textPreview: string)

  /** The dictionary `get_stats` returns, without the database path. */
  datatype Stats = Stats(documentCount: nat, chunkCount: nat, vectorCount: nat, dimension: nat)

  /** Why `add_document` raised. */
  datatype AddError = EmptyInput | CountMismatch | DimensionMismatch

  /** An id as the callers pass it: an integer (as `add_document` returns) or a string. */
  datatype IdArg = Num(n: int) | Text(s: string)

  /** `str(doc_id)`: the key an id argument is looked up under. */
  function IdKey(id: IdArg): (key: string)
    ensures id.Num? && id.n >= 0 ==> key == DecimalString(id.n)
    ensures id.Text? ==> key == id.s
  {
    match id
    case Num(n) => IntToString(n)
    case Text(s) => s
  }

  /** Number of characters of a chunk's text kept in its record. */
  const PreviewLength: nat := 200

  /** `text[:n] + ("..." if len(text) > n else "")`. */
  function Preview(text: string, n: nat): (r: string)
    ensures |text| <= n ==> r == text
    ensures |text| > n ==> |r| == n + 3 && r[..n] == text[..n] && r[n..] == "..."
  {
    if |text| > n then text[..n] + "..." else text
  }

  /** `1.0 / (1.0 + distance)`. */
  function Similarity(distance: real): (r: real)
    requires distance >= 0.0
    ensures r * (1.0 + distance) == 1.0
  {
    1.0 / (1.0 + distance)
  }

  /**
   * The similarity of a non-negative distance lies in (0, 1], is 1 exactly
   * for distance 0, and shrinks as the distance grows.
   */
  lemma SimilarityRange(d: real, e: real)
    requires 0.0 <= d && 0.0 <= e
    ensures 0.0 < Similarity(d) <= 1.0
    ensures Similarity(d) == 1.0 <==> d == 0.0
    ensures d < e ==> Similarity(e) < Similarity(d)
  {
    var s, t := Similarity(d), Similarity(e);
    assert s * (1.0 + d) == 1.0;
    assert t * (1.0 + e) == 1.0;
    assert 0.0 < s;
    assert s <= s * (1.0 + d);
    if d < e {
      assert t * (1.0 + d) < t * (1.0 + e);
    }
  }

  /** `[i for i in range(n) if i not in dropped]`: the surviving positions, ascending. */
  function Kept(n: nat, dropped: set<nat>): (keep: seq<nat>)
    ensures |keep| <= n
    ensures forall j :: 0 <= j < |keep| ==> keep[j] < n && keep[j] !in dropped
    ensures forall j, k :: 0 <= j < k < |keep| ==> keep[j] < keep[k]
  {
    if n == 0 then []
    else Kept(n - 1, dropped) + (if n - 1 in dropped then [] else [n - 1])
  }

  /** Number of dropped positions below `p`. */
  function DroppedBelow(p: nat, dropped: set<nat>): nat {
    if p == 0 then 0
    else DroppedBelow(p - 1, dropped) + (if p - 1 in dropped then 1 else 0)
  }

  /**
   * The new position of a surviving old position `p`: the number of surviving
   * positions below it, which is `p` minus the number of dropped positions
   * below it.
   */
  function NewPosition(p: nat, dropped: set<nat>): (q: nat)
    ensures q + DroppedBelow(p, dropped) == p
  {
    KeptCount(p, dropped);
    |Kept(p, dropped)|
  }

  /** Every position below `n` is either kept or dropped. */
  lemma {:induction false} KeptCount(n: nat, dropped: set<nat>)
    ensures |Kept(n, dropped)| + DroppedBelow(n, dropped) == n
  {
    if n > 0 {
      KeptCount(n - 1, dropped);
    }
  }

  /** A position below `n` is kept exactly when it is not dropped. */
  lemma {:induction false} KeptMembers(n: nat, dropped: set<nat>, p: nat)
    ensures p in Kept(n, dropped) <==> p < n && p !in dropped
  {
    if n > 0 {
      KeptMembers(n - 1, dropped, p);
    }
  }

  /** Keeping more positions never changes the ranks already given: `Kept(m)` is a prefix of `Kept(n)`. */
  lemma {:induction false} KeptPrefix(m: nat, n: nat, dropped: set<nat>)
    requires m <= n
    ensures |Kept(m, dropped)| <= |Kept(n, dropped)|
    ensures Kept(m, dropped) == Kept(n, dropped)[..|Kept(m, dropped)|]
  {
    if m < n {
      KeptPrefix(m, n - 1, dropped);
    }
  }

  /**
   * A surviving position `p` sits at index `NewPosition(p)` of the surviving
   * positions: the renumbering points every surviving chunk at its own vector.
   */
  lemma KeptAtNewPosition(n: nat, dropped: set<nat>, p: nat)
    requires p < n && p !in dropped
    ensures NewPosition(p, dropped) < |Kept(n, dropped)|
    ensures Kept(n, dropped)[NewPosition(p, dropped)] == p
  {
    KeptPrefix(p + 1, n, dropped);
    assert Kept(p + 1, dropped) == Kept(p, dropped) + [p];
  }

  /** The new position of the `j`-th surviving position is `j`. */
  lemma NewPositionOfKept(n: nat, dropped: set<nat>, j: nat)
    requires j < |Kept(n, dropped)|
    ensures NewPosition(Kept(n, dropped)[j], dropped) == j
  {
    var p := Kept(n, dropped)[j];
    KeptAtNewPosition(n, dropped, p);
  }

  /** With nothing dropped, every position survives in place. */
  lemma {:induction false} KeptNothing(n: nat)
    ensures Kept(n, {}) == seq(n, i => i)
  {
    if n > 0 {
      KeptNothing(n - 1);
    }
  }

  /** The index rebuilt from the surviving vectors, in ascending position order. */
  function Restrict<T>(xs: seq<T>, dropped: set<nat>): (r: seq<T>)
    ensures |r| == |Kept(|xs|, dropped)|
    ensures forall j :: 0 <= j < |r| ==> r[j] == xs[Kept(|xs|, dropped)[j]]
  {
    var keep := Kept(|xs|, dropped);
    seq(|keep|, j requires 0 <= j < |keep| => xs[keep[j]])
  }

  /** Dropping nothing leaves the index as it was. */
  lemma RestrictNothing<T>(xs: seq<T>)
    ensures Restrict(xs, {}) == xs
  {
    KeptNothing(|xs|);
  }

  /** No id occurs twice. */
  predicate Distinct(ids: seq<string>) {
    forall i, j :: 0 <= i < j < |ids| ==> ids[i] != ids[j]
  }

  /** `[str(first), str(first + 1), ..., str(first + n - 1)]`: the ids a counter standing at `first` hands out. */
  function CounterIds(first: nat, n: nat): (ids: seq<string>)
    ensures |ids| == n
  {
    if n == 0 then [] else CounterIds(first, n - 1) + [DecimalString(first + n - 1)]
  }

  /** Id `i` of the run is `str(first + i)`. */
  lemma {:induction false} CounterIdAt(first: nat, n: nat, i: nat)
    requires i < n
    ensures CounterIds(first, n)[i] == DecimalString(first + i)
  {
    if i < n - 1 {
      CounterIdAt(first, n - 1, i);
    }
  }

  /** The ids of a run are pairwise distinct and read back as numbers in `[first, first + n)`. */
  lemma CounterIdsFresh(first: nat, n: nat)
    ensures Distinct(CounterIds(first, n))
    ensures forall c :: c in CounterIds(first, n) ==> first <= ParseDecimal(c) < first + n
  {
    var ids := CounterIds(first, n);
    forall i | 0 <= i < n ensures ParseDecimal(ids[i]) == first + i {
      CounterIdAt(first, n, i);
      ParseDecimalString(first + i);
    }
  }

  /**
   * The chunk records `add_document` creates for the first `k` texts: the
   * chunk at rank `i` gets id `str(first + i)`, vector position `base + i`
   * and the preview of `texts[i]`.
   */
  function NewChunks(docKey: string, first: nat, base: nat, texts: seq<string>, k: nat): map<string, Chunk>
    requires k <= |texts|
  {
    if k == 0 then map[]
    else
      NewChunks(docKey, first, base, texts, k - 1)[DecimalString(first + k - 1) :=
        Chunk(docKey, k - 1, base + k - 1, Preview(texts[k - 1], PreviewLength))]
  }

  /** `added` holds one record per id of `ids`, for the texts of the same rank. */
  ghost predicate AddedChunks(added: map<string, Chunk>, docKey: string, ids: seq<string>, base: nat, texts: seq<string>)
    requires |ids| <= |texts|
  {
    && added.Keys == (set c | c in ids)
    && forall i :: 0 <= i < |ids| ==> added[ids[i]] == Chunk(docKey, i, base + i, Preview(texts[i], PreviewLength))
  }

  /** The chunk loop creates one record per id the counter hands out. */
  lemma {:induction false} NewChunksAdded(docKey: string, first: nat, base: nat, texts: seq<string>, k: nat)
    requires k <= |texts|
    ensures AddedChunks(NewChunks(docKey, first, base, texts, k), docKey, CounterIds(first, k), base, texts)
  {
    if k > 0 {
      NewChunksAdded(docKey, first, base, texts, k - 1);
      CounterIdNext(first, k - 1);
      AddedChunksExtend(NewChunks(docKey, first, base, texts, k - 1), docKey, CounterIds(first, k - 1),
        DecimalString(first + k - 1), base, texts);
    }
  }

  /** The next id the counter hands out is not among the ones it handed out before. */
  lemma CounterIdNext(first: nat, n: nat)
    ensures DecimalString(first + n) !in CounterIds(first, n)
  {
    CounterIdsFresh(first, n);
    ParseDecimalString(first + n);
  }

  /** Recording the next text under a fresh id extends the records by that one id. */
  lemma AddedChunksExtend(added: map<string, Chunk>, docKey: string, ids: seq<string>, id: string, base: nat, texts: seq<string>)
    requires |ids| < |texts| && id !in ids
    requires AddedChunks(added, docKey, ids, base, texts)
    ensures AddedChunks(added[id := Chunk(docKey, |ids|, base + |ids|, Preview(texts[|ids|], PreviewLength))],
      docKey, ids + [id], base, texts)
  {
    var ids' := ids + [id];
    assert (set c | c in ids') == (set c | c in ids) + {id};
    forall i | 0 <= i < |ids| ensures ids'[i] == ids[i] && ids'[i] != id {
    }
  }

  /** One more iteration of the chunk loop adds the record of rank `i` to the merged map. */
  lemma NewChunksStep(m: map<string, Chunk>, docKey: string, first: nat, base: nat, texts: seq<string>, i: nat)
    requires i < |texts|
    ensures m + NewChunks(docKey, first, base, texts, i + 1)
         == (m + NewChunks(docKey, first, base, texts, i))[DecimalString(first + i) :=
              Chunk(docKey, i, base + i, Preview(texts[i], PreviewLength))]
  {
  }

  /**
   * The first loop of `delete_document`: removes each listed chunk that is
   * still present and collects the vector position it held, in list order.
   */
  method RemoveChunks(chunks: map<string, Chunk>, ids: seq<string>)
    returns (remaining: map<string, Chunk>, vectorIndices: seq<nat>)
    requires Distinct(ids) && forall c :: c in ids ==> c in chunks
    ensures remaining == map c | c in chunks && c !in ids :: chunks[c]
    ensures |vectorIndices| == |ids|
    ensures forall j :: 0 <= j < |ids| ==> vectorIndices[j] == chunks[ids[j]].vectorIndex
  {
    remaining := chunks;
    vectorIndices := [];
    for i := 0 to |ids|
      invariant forall c :: c in remaining <==> c in chunks && c !in ids[..i]
      invariant forall c :: c in remaining ==> remaining[c] == chunks[c]
      invariant |vectorIndices| == i
      invariant forall j :: 0 <= j < i ==> vectorIndices[j] == chunks[ids[j]].vectorIndex
    {
      assert ids[i] !in ids[..i];
      if ids[i] in remaining {
        vectorIndices := vectorIndices + [remaining[ids[i]].vectorIndex];
        remaining := remaining - {ids[i]};
      }
    }
    assert ids[..|ids|] == ids;
  }

  /**
   * The body of `delete_document` for a known document: drops its chunks,
   * rebuilds the index without their vectors (or empties it when no vector
   * remains) and renumbers the surviving chunks to their vectors' new positions.
   */
  method RemoveDocumentChunks(documents: map<string, Document>, chunks: map<string, Chunk>, index: seq<Vector>,
                              ghost owners: seq<string>, key: string)
    returns (chunks': map<string, Chunk>, index': seq<Vector>)
    requires key in documents && PositionsValid(chunks, owners, |index|)
    requires DocumentsListChunks(documents, chunks) && ChunksListed(documents, chunks)
    ensures chunks' == Renumbered(chunks, key)
    ensures index' == Restrict(index, DocPositions(chunks, key))
  {
    var ids := ChunkIdsOf(documents[key]);
    DocumentChunks(documents, chunks, key);
    var remaining, vectorIndices := RemoveChunks(chunks, ids);
    assert remaining == Survivors(chunks, key);
    ghost var dropped := DocPositions(chunks, key);
    PositionsOfIds(chunks, key, ids, vectorIndices);
    chunks', index' := remaining, index;
    if vectorIndices != [] {
      var present := set p | p in vectorIndices;
      assert present == dropped;
      var keep := Kept(|index|, present);
      if keep != [] {
        index' := CopyKept(index, keep, dropped);
        RemappedIsRenumbered(chunks, owners, |index|, key);
        chunks' := RemapPositions(remaining, Ranks(keep));
      } else {
        RenumberedAllDropped(chunks, owners, |index|, key);
        index' := [];
      }
    } else {
      RenumberedNothing(chunks, key);
      RestrictNothing(index);
    }
  }

  /**
   * The loop of `add_document` that records one chunk per text: the chunk of
   * rank `i` gets the next chunk id, the vector position `base + i`, where
   * `base` is the number of vectors before the append (`ntotal - len(chunks)`
   * once the new vectors are in), and the preview of its text.
   */
  method AddChunkRecords(chunks: map<string, Chunk>, docKey: string, first: nat, base: nat, texts: seq<string>)
    returns (updated: map<string, Chunk>, chunkIds: seq<string>)
    ensures chunkIds == CounterIds(first, |texts|)
    ensures updated == chunks + NewChunks(docKey, first, base, texts, |texts|)
  {
    updated := chunks;
    chunkIds := [];
    var counter := first;
    for i := 0 to |texts|
      invariant counter == first + i
      invariant chunkIds == CounterIds(first, i)
      invariant updated == chunks + NewChunks(docKey, first, base, texts, i)
    {
      NewChunksStep(chunks, docKey, first, base, texts, i);
      var chunkId := DecimalString(counter);
      counter := counter + 1;
      updated := updated[chunkId := Chunk(docKey, i, base + i, Preview(texts[i], PreviewLength))];
      chunkIds := chunkIds + [chunkId];
    }
  }

  /** Every key of a map is below the counter: `int(key) < next`. */
  ghost predicate KeysBelow<T>(m: map<string, T>, next: nat) {
    forall key :: key in m ==> ParseDecimal(key) < next
  }

  /**
   * The vector positions: `owners[p]` is the chunk whose vector sits at
   * position `p`; every position has exactly one chunk and every chunk one
   * position below `n`.
   */
  ghost predicate PositionsValid(chunks: map<string, Chunk>, owners: seq<string>, n: nat) {
    && |owners| == n
    && (forall p :: 0 <= p < n ==> owners[p] in chunks && chunks[owners[p]].vectorIndex == p)
    && (forall c :: c in chunks ==> chunks[c].vectorIndex < n && owners[chunks[c].vectorIndex] == c)
  }

  /** A document's `chunk_ids` are chunks of that document, with ranks 0, 1, ... */
  ghost predicate DocumentsListChunks(documents: map<string, Document>, chunks: map<string, Chunk>) {
    forall d :: d in documents ==> ListsChunks(chunks, d, documents[d])
  }

  /** The chunk ids of document `d`, when it has them, name its chunks in rank order. */
  ghost predicate ListsChunks(chunks: map<string, Chunk>, d: string, doc: Document) {
    doc.chunkIds.Some? ==>
      && |doc.chunkIds.value| == doc.chunkCount
      && forall i :: 0 <= i < |doc.chunkIds.value| ==>
           && doc.chunkIds.value[i] in chunks
           && chunks[doc.chunkIds.value[i]].docId == d
           && chunks[doc.chunkIds.value[i]].index == i
  }

  /** Every chunk is listed by its document, at its rank. */
  ghost predicate ChunksListed(documents: map<string, Document>, chunks: map<string, Chunk>) {
    forall c :: c in chunks ==> Listed(documents, c, chunks[c])
  }

  /** Chunk `c` appears in its document's chunk ids at its rank. */
  ghost predicate Listed(documents: map<string, Document>, c: string, chunk: Chunk) {
    && chunk.docId in documents
    && documents[chunk.docId].chunkIds.Some?
    && chunk.index < |documents[chunk.docId].chunkIds.value|
    && documents[chunk.docId].chunkIds.value[chunk.index] == c
  }

  /** Every stored vector has the index's dimension. */
  ghost predicate VectorsValid(index: seq<Vector>, dimension: nat) {
    forall p :: 0 <= p < |index| ==> |index[p]| == dimension
  }

  /** The store's invariant, on the values of its fields. */
  ghost predicate StoreValid(
    documents: map<string, Document>, chunks: map<string, Chunk>, nextDocId: nat, nextChunkId: nat,
    index: seq<Vector>, owners: seq<string>, dimension: nat)
  {
    && 1 <= nextDocId && 1 <= nextChunkId
    && KeysBelow(documents, nextDocId) && KeysBelow(chunks, nextChunkId)
    && PositionsValid(chunks, owners, |index|)
    && VectorsValid(index, dimension)
    && DocumentsListChunks(documents, chunks)
    && ChunksListed(documents, chunks)
  }

  /** A sequence without repeated elements has as many distinct elements as it is long. */
  lemma {:induction false} DistinctCard(s: seq<string>)
    requires forall i, j :: 0 <= i < j < |s| ==> s[i] != s[j]
    ensures |set x | x in s| == |s|
  {
    if s != [] {
      var t := s[..|s| - 1];
      DistinctCard(t);
      assert (set x | x in s) == (set x | x in t) + {s[|s| - 1]};
      assert s[|s| - 1] !in (set x | x in t);
    }
  }

  /**
   * Vector positions and chunks are in one-to-one correspondence: the index
   * holds exactly as many vectors as there are chunks, and no two chunks share
   * a position.
   */
  lemma PositionsOneToOne(chunks: map<string, Chunk>, owners: seq<string>, n: nat)
    requires PositionsValid(chunks, owners, n)
    ensures |chunks| == n
    ensures forall c, d :: c in chunks && d in chunks && c != d ==> chunks[c].vectorIndex != chunks[d].vectorIndex
  {
    assert forall i, j :: 0 <= i < j < |owners| ==> owners[i] != owners[j] by {
      forall i, j | 0 <= i < j < |owners| ensures owners[i] != owners[j] {
        assert chunks[owners[i]].vectorIndex == i;
      }
    }
    DistinctCard(owners);
    assert chunks.Keys == set x | x in owners;
  }

  /** Adding chunks with fresh ids at fresh positions keeps positions and chunks one-to-one. */
  lemma AddPositionsValid(chunks: map<string, Chunk>, owners: seq<string>, n: nat,
                          docKey: string, ids: seq<string>, texts: seq<string>, added: map<string, Chunk>)
    requires PositionsValid(chunks, owners, n)
    requires |ids| <= |texts| && AddedChunks(added, docKey, ids, n, texts)
    requires forall c :: c in ids ==> c !in chunks
    ensures PositionsValid(chunks + added, owners + ids, n + |ids|)
  {
    var chunks' := chunks + added;
    var owners' := owners + ids;
    forall p | 0 <= p < n + |ids|
      ensures owners'[p] in chunks' && chunks'[owners'[p]].vectorIndex == p
    {
      if p >= n {
        assert owners'[p] == ids[p - n];
      } else {
        assert owners'[p] == owners[p] && owners[p] !in added;
      }
    }
    forall c | c in chunks'
      ensures chunks'[c].vectorIndex < n + |ids| && owners'[chunks'[c].vectorIndex] == c
    {
      if c in added {
        var i :| 0 <= i < |ids| && ids[i] == c;
        assert owners'[n + i] == ids[i];
      }
    }
  }

  /** The new document lists exactly its fresh chunks; older documents still list theirs. */
  lemma AddDocumentsListChunks(documents: map<string, Document>, chunks: map<string, Chunk>,
                               docKey: string, doc: Document, ids: seq<string>, n: nat, texts: seq<string>,
                               added: map<string, Chunk>)
    requires DocumentsListChunks(documents, chunks)
    requires |ids| <= |texts| && AddedChunks(added, docKey, ids, n, texts)
    requires forall c :: c in ids ==> c !in chunks
    requires doc.chunkIds == Some(ids) && doc.chunkCount == |ids|
    ensures DocumentsListChunks(documents[docKey := doc], chunks + added)
  {
    var documents' := documents[docKey := doc];
    var chunks' := chunks + added;
    forall d, i | d in documents' && documents'[d].chunkIds.Some? && 0 <= i < |documents'[d].chunkIds.value|
      ensures documents'[d].chunkIds.value[i] in chunks'
      ensures chunks'[documents'[d].chunkIds.value[i]].docId == d
      ensures chunks'[documents'[d].chunkIds.value[i]].index == i
    {
      if d != docKey {
        var c := documents[d].chunkIds.value[i];
        assert c in chunks && c !in added;
      }
    }
  }

  /** Every chunk, old or new, is listed by its document after the new document is added. */
  lemma AddChunksListed(documents: map<string, Document>, chunks: map<string, Chunk>,
                        docKey: string, doc: Document, ids: seq<string>, n: nat, texts: seq<string>,
                        added: map<string, Chunk>)
    requires ChunksListed(documents, chunks)
    requires docKey !in documents
    requires |ids| <= |texts| && AddedChunks(added, docKey, ids, n, texts)
    requires doc.chunkIds == Some(ids)
    ensures ChunksListed(documents[docKey := doc], chunks + added)
  {
    var documents' := documents[docKey := doc];
    var chunks' := chunks + added;
    forall c | c in chunks'
      ensures chunks'[c].docId in documents'
      ensures documents'[chunks'[c].docId].chunkIds.Some?
      ensures chunks'[c].index < |documents'[chunks'[c].docId].chunkIds.value|
      ensures documents'[chunks'[c].docId].chunkIds.value[chunks'[c].index] == c
    {
      if c in added {
        var i :| 0 <= i < |ids| && ids[i] == c;
      } else {
        assert chunks[c].docId != docKey;
      }
    }
  }

  /** A successful `add_document` keeps the store's invariant. */
  lemma AddDocumentValid(
    documents: map<string, Document>, chunks: map<string, Chunk>, nextDocId: nat, nextChunkId: nat,
    index: seq<Vector>, owners: seq<string>, dimension: nat,
    title: string, filePath: string, texts: seq<string>, embeddings: seq<Vector>,
    documents': map<string, Document>, chunks': map<string, Chunk>, nextDocId': nat, nextChunkId': nat,
    index': seq<Vector>, owners': seq<string>)
    requires StoreValid(documents, chunks, nextDocId, nextChunkId, index, owners, dimension)
    requires |texts| == |embeddings| && VectorsValid(embeddings, dimension)
    requires documents' ==
      documents[DecimalString(nextDocId) := Document(title, filePath, |texts|, Some(CounterIds(nextChunkId, |texts|)))]
    requires chunks' == chunks + NewChunks(DecimalString(nextDocId), nextChunkId, |index|, texts, |texts|)
    requires nextDocId' == nextDocId + 1 && nextChunkId' == nextChunkId + |texts|
    requires index' == index + embeddings && owners' == owners + CounterIds(nextChunkId, |texts|)
    ensures StoreValid(documents', chunks', nextDocId', nextChunkId', index', owners', dimension)
  {
    var docKey, ids := DecimalString(nextDocId), CounterIds(nextChunkId, |texts|);
    var doc := Document(title, filePath, |texts|, Some(ids));
    var added := NewChunks(docKey, nextChunkId, |index|, texts, |texts|);
    ParseDecimalString(nextDocId);
    CounterIdsFresh(nextChunkId, |texts|);
    NewChunksAdded(docKey, nextChunkId, |index|, texts, |texts|);
    AddPositionsValid(chunks, owners, |index|, docKey, ids, texts, added);
    AddDocumentsListChunks(documents, chunks, docKey, doc, ids, |index|, texts, added);
    AddChunksListed(documents, chunks, docKey, doc, ids, |index|, texts, added);
    assert KeysBelow(documents[docKey := doc], nextDocId + 1);
    assert KeysBelow(chunks + added, nextChunkId + |texts|);
    assert VectorsValid(index + embeddings, dimension) by {
      forall p | 0 <= p < |index + embeddings| ensures |(index + embeddings)[p]| == dimension {
        if p >= |index| {
          assert (index + embeddings)[p] == embeddings[p - |index|];
        }
      }
    }
  }

  /**
   * A rejected batch of embeddings still leaves the document record behind,
   * with no chunk ids; the invariant holds, since nothing points at it.
   */
  lemma AddOrphanValid(
    documents: map<string, Document>, chunks: map<string, Chunk>, nextDocId: nat, nextChunkId: nat,
    index: seq<Vector>, owners: seq<string>, dimension: nat, title: string, filePath: string, count: nat)
    requires StoreValid(documents, chunks, nextDocId, nextChunkId, index, owners, dimension)
    ensures StoreValid(
      documents[DecimalString(nextDocId) := Document(title, filePath, count, None)],
      chunks, nextDocId + 1, nextChunkId, index, owners, dimension)
  {
    var docKey := DecimalString(nextDocId);
    var documents' := documents[docKey := Document(title, filePath, count, None)];
    ParseDecimalString(nextDocId);
    assert KeysBelow(documents', nextDocId + 1);
    forall c | c in chunks ensures chunks[c].docId != docKey {
    }
  }

  /** The vector positions of the chunks of document `key`: the ones `delete_document` removes. */
  function DocPositions(chunks: map<string, Chunk>, key: string): set<nat> {
    set c | c in chunks && chunks[c].docId == key :: chunks[c].vectorIndex
  }

  /**
   * The chunks that survive deleting document `key`, each moved to the
   * position its vector takes in the compacted index.
   */
  function Renumbered(chunks: map<string, Chunk>, key: string): (r: map<string, Chunk>)
    ensures forall c :: c in r <==> c in chunks && chunks[c].docId != key
    ensures forall c :: c in r ==> r[c] == chunks[c].(vectorIndex := r[c].vectorIndex)
    ensures forall c :: c in r ==>
      r[c].vectorIndex + DroppedBelow(chunks[c].vectorIndex, DocPositions(chunks, key)) == chunks[c].vectorIndex
  {
    var dropped := DocPositions(chunks, key);
    map c | c in chunks && chunks[c].docId != key ::
      chunks[c].(vectorIndex := NewPosition(chunks[c].vectorIndex, dropped))
  }

  /** Under the position invariant, position `p` is dropped exactly when its owner belongs to `key`. */
  lemma DroppedPositions(chunks: map<string, Chunk>, owners: seq<string>, n: nat, key: string)
    requires PositionsValid(chunks, owners, n)
    ensures forall p: nat :: p in DocPositions(chunks, key) <==> p < n && chunks[owners[p]].docId == key
  {
    forall p: nat | p in DocPositions(chunks, key) ensures p < n && chunks[owners[p]].docId == key {
      var c :| c in chunks && chunks[c].docId == key && chunks[c].vectorIndex == p;
    }
    forall p: nat | p < n && chunks[owners[p]].docId == key ensures p in DocPositions(chunks, key) {
    }
  }

  /** After the deletion, positions and surviving chunks are again one-to-one. */
  lemma DeletePositionsValid(chunks: map<string, Chunk>, owners: seq<string>, n: nat, key: string)
    requires PositionsValid(chunks, owners, n)
    ensures var dropped := DocPositions(chunks, key);
      PositionsValid(Renumbered(chunks, key), Restrict(owners, dropped), |Kept(n, dropped)|)
  {
    var dropped := DocPositions(chunks, key);
    var chunks' := Renumbered(chunks, key);
    var owners' := Restrict(owners, dropped);
    var keep := Kept(n, dropped);
    DroppedPositions(chunks, owners, n, key);
    forall j | 0 <= j < |keep|
      ensures owners'[j] in chunks' && chunks'[owners'[j]].vectorIndex == j
    {
      NewPositionOfKept(n, dropped, j);
    }
    forall c | c in chunks'
      ensures chunks'[c].vectorIndex < |keep| && owners'[chunks'[c].vectorIndex] == c
    {
      var p := chunks[c].vectorIndex;
      assert owners[p] == c;
      KeptAtNewPosition(n, dropped, p);
    }
  }

  /** After the deletion, the remaining documents and chunks still point at each other. */
  lemma DeleteOwnershipValid(documents: map<string, Document>, chunks: map<string, Chunk>, key: string)
    requires DocumentsListChunks(documents, chunks) && ChunksListed(documents, chunks)
    ensures DocumentsListChunks(documents - {key}, Renumbered(chunks, key))
    ensures ChunksListed(documents - {key}, Renumbered(chunks, key))
  {
    var documents' := documents - {key};
    var chunks' := Renumbered(chunks, key);
    forall d, i | d in documents' && documents'[d].chunkIds.Some? && 0 <= i < |documents'[d].chunkIds.value|
      ensures documents'[d].chunkIds.value[i] in chunks'
      ensures chunks'[documents'[d].chunkIds.value[i]].docId == d
      ensures chunks'[documents'[d].chunkIds.value[i]].index == i
    {
    }
  }

  /** `delete_document` keeps the store's invariant. */
  lemma DeleteDocumentValid(
    documents: map<string, Document>, chunks: map<string, Chunk>, nextDocId: nat, nextChunkId: nat,
    index: seq<Vector>, owners: seq<string>, dimension: nat, key: string,
    documents': map<string, Document>, chunks': map<string, Chunk>, index': seq<Vector>, owners': seq<string>)
    requires StoreValid(documents, chunks, nextDocId, nextChunkId, index, owners, dimension)
    requires documents' == documents - {key} && chunks' == Renumbered(chunks, key)
    requires index' == Restrict(index, DocPositions(chunks, key))
    requires owners' == Restrict(owners, DocPositions(chunks, key))
    ensures StoreValid(documents', chunks', nextDocId, nextChunkId, index', owners', dimension)
  {
    var dropped := DocPositions(chunks, key);
    DeletePositionsValid(chunks, owners, |index|, key);
    DeleteOwnershipValid(documents, chunks, key);
    assert VectorsValid(Restrict(index, dropped), dimension);
  }

  /** Every surviving chunk still finds its own embedding at its new position. */
  lemma DeleteKeepsVectors(chunks: map<string, Chunk>, owners: seq<string>, index: seq<Vector>, key: string)
    requires PositionsValid(chunks, owners, |index|)
    ensures var dropped, chunks' := DocPositions(chunks, key), Renumbered(chunks, key);
      forall c :: c in chunks' ==>
        chunks'[c].vectorIndex < |Restrict(index, dropped)|
        && Restrict(index, dropped)[chunks'[c].vectorIndex] == index[chunks[c].vectorIndex]
  {
    var dropped := DocPositions(chunks, key);
    DroppedPositions(chunks, owners, |index|, key);
    forall c | c in Renumbered(chunks, key)
      ensures Renumbered(chunks, key)[c].vectorIndex < |Restrict(index, dropped)|
      ensures Restrict(index, dropped)[Renumbered(chunks, key)[c].vectorIndex] == index[chunks[c].vectorIndex]
    {
      var p := chunks[c].vectorIndex;
      assert owners[p] == c;
      KeptAtNewPosition(|index|, dropped, p);
    }
  }

  /** `doc.get("chunk_ids", [])`. */
  function ChunkIdsOf(doc: Document): seq<string> {
    if doc.chunkIds.Some? then doc.chunkIds.value else []
  }

  /** The chunks of every document but `key`, unchanged. */
  function Survivors(chunks: map<string, Chunk>, key: string): map<string, Chunk> {
    map c | c in chunks && chunks[c].docId != key :: chunks[c]
  }

  /** `{old_idx: new_idx for new_idx, old_idx in enumerate(keep)}`. */
  function Ranks(keep: seq<nat>): (ranks: map<nat, nat>)
    requires forall j, k :: 0 <= j < k < |keep| ==> keep[j] < keep[k]
    ensures forall p :: p in ranks <==> p in keep
    ensures forall j :: 0 <= j < |keep| ==> ranks[keep[j]] == j
  {
    map j | 0 <= j < |keep| :: keep[j] := j
  }

  /** Each chunk whose position has a new rank moved to that rank; every other chunk as it was. */
  function Remapped(chunks: map<string, Chunk>, ranks: map<nat, nat>): map<string, Chunk> {
    map c | c in chunks ::
      if chunks[c].vectorIndex in ranks then chunks[c].(vectorIndex := ranks[chunks[c].vectorIndex]) else chunks[c]
  }

  /**
   * The ids a document lists are exactly the chunks of that document, each
   * once.
   */
  lemma DocumentChunks(documents: map<string, Document>, chunks: map<string, Chunk>, key: string)
    requires DocumentsListChunks(documents, chunks) && ChunksListed(documents, chunks)
    requires key in documents
    ensures var ids := ChunkIdsOf(documents[key]);
      && Distinct(ids)
      && (forall c :: c in ids ==> c in chunks && chunks[c].docId == key)
      && (forall c :: c in chunks && chunks[c].docId == key ==> c in ids)
  {
    var ids := ChunkIdsOf(documents[key]);
    forall i, j | 0 <= i < j < |ids| ensures ids[i] != ids[j] {
      assert chunks[ids[i]].index == i && chunks[ids[j]].index == j;
    }
  }

  /** Nothing dropped: every surviving chunk keeps its position. */
  lemma RenumberedNothing(chunks: map<string, Chunk>, key: string)
    requires DocPositions(chunks, key) == {}
    ensures Renumbered(chunks, key) == Survivors(chunks, key)
  {
    forall c | c in Survivors(chunks, key)
      ensures NewPosition(chunks[c].vectorIndex, {}) == chunks[c].vectorIndex
    {
      KeptNothing(chunks[c].vectorIndex);
    }
  }

  /** Every position dropped: no chunk survives. */
  lemma RenumberedAllDropped(chunks: map<string, Chunk>, owners: seq<string>, n: nat, key: string)
    requires PositionsValid(chunks, owners, n)
    requires Kept(n, DocPositions(chunks, key)) == []
    ensures Renumbered(chunks, key) == Survivors(chunks, key) == map[]
  {
    DroppedPositions(chunks, owners, n, key);
    forall c | c in chunks ensures chunks[c].docId == key {
      KeptMembers(n, DocPositions(chunks, key), chunks[c].vectorIndex);
    }
  }

  /**
   * Giving every surviving chunk the rank of its position among the kept
   * positions is the renumbering `delete_document` promises.
   */
  lemma RemappedIsRenumbered(chunks: map<string, Chunk>, owners: seq<string>, n: nat, key: string)
    requires PositionsValid(chunks, owners, n)
    ensures Remapped(Survivors(chunks, key), Ranks(Kept(n, DocPositions(chunks, key)))) == Renumbered(chunks, key)
  {
    var dropped := DocPositions(chunks, key);
    var ranks := Ranks(Kept(n, dropped));
    var survivors := Survivors(chunks, key);
    var left, right := Remapped(survivors, ranks), Renumbered(chunks, key);
    DroppedPositions(chunks, owners, n, key);
    forall c | c in survivors ensures left[c] == right[c] {
      var p := chunks[c].vectorIndex;
      assert owners[p] == c;
      KeptAtNewPosition(n, dropped, p);
      assert ranks[p] == NewPosition(p, dropped);
    }
    assert left.Keys == survivors.Keys == right.Keys;
  }

  /** The ids' recorded positions are exactly the document's positions. */
  lemma PositionsOfIds(chunks: map<string, Chunk>, key: string, ids: seq<string>, positions: seq<nat>)
    requires forall c :: c in ids ==> c in chunks && chunks[c].docId == key
    requires forall c :: c in chunks && chunks[c].docId == key ==> c in ids
    requires |positions| == |ids|
    requires forall j :: 0 <= j < |ids| ==> positions[j] == chunks[ids[j]].vectorIndex
    ensures (set p | p in positions) == DocPositions(chunks, key)
  {
    forall p | p in DocPositions(chunks, key) ensures p in positions {
      var c :| c in chunks && chunks[c].docId == key && chunks[c].vectorIndex == p;
      var j :| 0 <= j < |ids| && ids[j] == c;
      assert positions[j] == p;
    }
  }

  /** The loop that copies the kept vectors, in ascending position order, into a new index. */
  method CopyKept(index: seq<Vector>, keep: seq<nat>, ghost dropped: set<nat>) returns (kept: seq<Vector>)
    requires keep == Kept(|index|, dropped)
    ensures kept == Restrict(index, dropped)
  {
    kept := [];
    for j := 0 to |keep|
      invariant kept == Restrict(index, dropped)[..j]
    {
      kept := kept + [index[keep[j]]];
    }
  }

  /** The loop that moves every chunk whose position has a new rank to that rank. */
  method RemapPositions(chunks: map<string, Chunk>, ranks: map<nat, nat>) returns (remapped: map<string, Chunk>)
    ensures remapped == Remapped(chunks, ranks)
  {
    remapped := chunks;
    var todo := chunks.Keys;
    while todo != {}
      invariant todo <= chunks.Keys && remapped.Keys == chunks.Keys
      invariant forall c :: c in todo ==> remapped[c] == chunks[c]
      invariant forall c :: c in chunks && c !in todo ==> remapped[c] == Remapped(chunks, ranks)[c]
      decreases |todo|
    {
      var c :| c in todo;
      var oldIdx := remapped[c].vectorIndex;
      if oldIdx in ranks {
        remapped := remapped[c := remapped[c].(vectorIndex := ranks[oldIdx])];
      }
      todo := todo - {c};
    }
  }

  /** The result entry for a resolved hit. */
  function ResultFor(chunkId: string, chunk: Chunk, doc: Document, h: Hit): SearchResult
    requires h.distance >= 0.0
  {
    SearchResult(chunkId, chunk.docId, doc.title, chunk.index, Similarity(h.distance), h.distance, chunk.text)
  }

  /** FAISS reports only non-negative squared distances for real hits. */
  predicate DistancesValid(hits: seq<Hit>) {
    forall k :: 0 <= k < |hits| && hits[k].idx != -1 ==> hits[k].distance >= 0.0
  }

  /**
   * The store: the `metadata` dictionary (documents, chunks and both id
   * counters) and the FAISS index, reduced to its sequence of vectors.
   */
  class VectorDB {
    const dimension: nat
    var documents: map<string, Document>
    var chunks: map<string, Chunk>
    var nextDocId: nat
    var nextChunkId: nat
    var index: seq<Vector>
    /** Which chunk owns each position of the index: the inverse of the chunks' `vectorIndex`. */
    ghost var owners: seq<string>

    ghost predicate Valid()
      reads this
    {
      StoreValid(documents, chunks, nextDocId, nextChunkId, index, owners, dimension)
    }

    /** A fresh store: no documents, no chunks, both counters at 1, an empty index. */
    constructor(dimension: nat)
      ensures Valid()
      ensures this.dimension == dimension
      ensures documents == map[] && chunks == map[] && index == []
      ensures nextDocId == 1 && nextChunkId == 1
    {
      this.dimension := dimension;
      documents := map[];
      chunks := map[];
      nextDocId := 1;
      nextChunkId := 1;
      index := [];
      owners := [];
    }

    /**
     * `add_document(title, file_path, chunks, embeddings)`: rejects empty or
     * mismatched input without touching the store; otherwise takes the next
     * document id and records the document, then appends the vectors (which
     * FAISS refuses when their width is not the index's dimension, leaving
     * the record behind without chunk ids), then records one chunk per text
     * with the next chunk ids, and returns the document id as a number.
     */
    method AddDocument(title: string, filePath: string, texts: seq<string>, embeddings: seq<Vector>)
      returns (r: Result<nat, AddError>)
      requires Valid()
      modifies this
      ensures Valid()
      ensures texts == [] || embeddings == [] ==> r == Failure(EmptyInput) && unchanged(this)
      ensures texts != [] && embeddings != [] && |texts| != |embeddings| ==>
        r == Failure(CountMismatch) && unchanged(this)
      ensures texts != [] && |texts| == |embeddings| && !VectorsValid(embeddings, dimension) ==>
        && r == Failure(DimensionMismatch)
        && documents == old(documents)[DecimalString(old(nextDocId)) := Document(title, filePath, |texts|, None)]
        && nextDocId == old(nextDocId) + 1
        && chunks == old(chunks) && nextChunkId == old(nextChunkId) && index == old(index)
      ensures texts != [] && |texts| == |embeddings| && VectorsValid(embeddings, dimension) ==>
        var docKey, ids := DecimalString(old(nextDocId)), CounterIds(old(nextChunkId), |texts|);
        && r == Success(old(nextDocId))
        && documents == old(documents)[docKey := Document(title, filePath, |texts|, Some(ids))]
        && chunks == old(chunks) + NewChunks(docKey, old(nextChunkId), |old(index)|, texts, |texts|)
        && nextDocId == old(nextDocId) + 1 && nextChunkId == old(nextChunkId) + |texts|
        && index == old(index) + embeddings
      ensures r.Success? ==> GetDocumentById(Num(r.value)).Some?
    {
      if |texts| == 0 || |embeddings| == 0 {
        return Failure(EmptyInput);
      }
      if |texts| != |embeddings| {
        return Failure(CountMismatch);
      }
      // The document record is written before FAISS sees the vectors; when
      // FAISS refuses them the record stays behind without chunk ids.
      var docId := nextDocId;
      var docKey := DecimalString(docId);
      var doc := Document(title, filePath, |texts|, None);
      if exists k | 0 <= k < |embeddings| :: |embeddings[k]| != dimension {
        AddOrphanValid(documents, chunks, docId, nextChunkId, index, owners, dimension, title, filePath, |texts|);
        documents, nextDocId := documents[docKey := doc], docId + 1;
        return Failure(DimensionMismatch);
      }
      assert VectorsValid(embeddings, dimension);
      var base := |index|;
      var first := nextChunkId;
      var updated, chunkIds := AddChunkRecords(chunks, docKey, first, base, texts);
      ghost var documents0, chunks0, index0, owners0 := documents, chunks, index, owners;
      documents, chunks, nextDocId, nextChunkId, index, owners :=
        documents[docKey := doc.(chunkIds := Some(chunkIds))], updated, docId + 1, first + |texts|,
        index + embeddings, owners + chunkIds;
      AddDocumentValid(documents0, chunks0, docId, first, index0, owners0, dimension, title, filePath, texts, embeddings,
                       documents, chunks, nextDocId, nextChunkId, index, owners);
      ParseDecimalString(docId);
      return Success(ParseDecimal(docKey));
    }

    /**
     * The loop of `search` that looks for the chunk whose vector sits at
     * position `idx`, scanning every chunk record.
     */
    method FindChunk(idx: int) returns (found: Option<string>)
      ensures found.Some? ==> found.value in chunks && chunks[found.value].vectorIndex == idx
      ensures found.None? ==> forall c :: c in chunks ==> chunks[c].vectorIndex != idx
    {
      var todo := chunks.Keys;
      while todo != {}
        invariant todo <= chunks.Keys
        invariant forall c :: c in chunks && c !in todo ==> chunks[c].vectorIndex != idx
        decreases |todo|
      {
        var c :| c in todo;
        if chunks[c].vectorIndex == idx {
          return Some(c);
        }
        todo := todo - {c};
      }
      return None;
    }

    /**
     * What `search` reports for one hit: nothing for position -1 or a
     * position without a chunk, otherwise the chunk's id, document, rank and
     * preview with the hit's distance and its similarity.
     */
    ghost function ResolveHit(h: Hit): (r: Option<SearchResult>)
      reads this
      requires Valid()
      requires h.idx != -1 ==> h.distance >= 0.0
      ensures r.Some? <==> h.idx != -1 && exists c :: c in chunks && chunks[c].vectorIndex == h.idx
      ensures r.Some? ==>
        && r.value.chunkId in chunks && chunks[r.value.chunkId].vectorIndex == h.idx
        && r.value == ResultFor(r.value.chunkId, chunks[r.value.chunkId], documents[chunks[r.value.chunkId].docId], h)
    {
      if h.idx == -1 || !(0 <= h.idx < |owners|) then None
      else
        var c := owners[h.idx];
        Some(ResultFor(c, chunks[c], documents[chunks[c].docId], h))
    }

    /** The results `search` returns for the hits FAISS reported, in the hits' order. */
    ghost function ResultsFor(hits: seq<Hit>): seq<SearchResult>
      reads this
      requires Valid() && DistancesValid(hits)
    {
      if hits == [] then []
      else
        var last := ResolveHit(hits[|hits| - 1]);
        ResultsFor(hits[..|hits| - 1]) + (if last.Some? then [last.value] else [])
    }

    /** Every result `search` builds names a stored chunk and a stored document. */
    lemma {:induction false} ResultsResolve(hits: seq<Hit>)
      requires Valid() && DistancesValid(hits)
      ensures forall r :: r in ResultsFor(hits) ==> r.chunkId in chunks && r.docId in documents
    {
      if hits != [] {
        assert DistancesValid(hits[..|hits| - 1]);
        ResultsResolve(hits[..|hits| - 1]);
        var last := ResolveHit(hits[|hits| - 1]);
        if last.Some? {
          assert Listed(documents, last.value.chunkId, chunks[last.value.chunkId]);
        }
      }
    }

    /**
     * `search(query_vector, top_k)`, given the hits FAISS returns for the
     * query: nothing from an empty index; otherwise one result per hit that
     * resolves to a chunk, in the hits' order.
     */
    method Search(hits: seq<Hit>) returns (results: seq<SearchResult>)
      requires Valid() && DistancesValid(hits)
      ensures |index| == 0 ==> results == []
      ensures |index| > 0 ==> results == ResultsFor(hits)
    {
      if |index| == 0 {
        return [];
      }
      results := [];
      for k := 0 to |hits|
        invariant results == ResultsFor(hits[..k])
      {
        assert hits[..k + 1][..k] == hits[..k];
        var h := hits[k];
        if h.idx == -1 {
          continue;
        }
        var found := FindChunk(h.idx);
        if found.None? {
          continue;
        }
        var info := chunks[found.value];
        var doc := documents[info.docId];
        results := results + [ResultFor(found.value, info, doc, h)];
      }
      assert hits[..|hits|] == hits;
    }

    /** `get_document_by_id(doc_id)`: the record stored under `str(doc_id)`, if any. */
    function GetDocumentById(id: IdArg): (r: Option<Document>)
      reads this
      ensures r.Some? <==> IdKey(id) in documents
      ensures r.Some? ==> r.value == documents[IdKey(id)]
    {
      if IdKey(id) in documents then Some(documents[IdKey(id)]) else None
    }

    /** `get_chunk_by_id(chunk_id)`: the record stored under `str(chunk_id)`, if any. */
    function GetChunkById(id: IdArg): (r: Option<Chunk>)
      reads this
      ensures r.Some? <==> IdKey(id) in chunks
      ensures r.Some? ==> r.value == chunks[IdKey(id)]
    {
      if IdKey(id) in chunks then Some(chunks[IdKey(id)]) else None
    }

    /** `get_all_documents()`. */
    function GetAllDocuments(): map<string, Document>
      reads this
    {
      documents
    }

    /** `get_all_chunks()`. */
    function GetAllChunks(): map<string, Chunk>
      reads this
    {
      chunks
    }

    /** `get_stats()`, without the database path. */
    function GetStats(): (s: Stats)
      reads this
      ensures s.documentCount == |documents| && s.chunkCount == |chunks|
      ensures s.vectorCount == |index| && s.dimension == dimension
    {
      Stats(|documents|, |chunks|, |index|, dimension)
    }

    /**
     * `delete_document(doc_id)`: false for an unknown id. Otherwise removes
     * the document's chunks, collecting their positions; when there were
     * any, rebuilds the index from the other vectors in ascending position
     * order (or empties it when none remain) and moves every remaining chunk
     * to its vector's new position; finally removes the document.
     */
    method DeleteDocument(id: IdArg) returns (deleted: bool)
      requires Valid()
      modifies this
      ensures Valid()
      ensures deleted <==> IdKey(id) in old(documents)
      ensures !deleted ==> unchanged(this)
      ensures deleted ==>
        && documents == old(documents) - {IdKey(id)}
        && chunks == Renumbered(old(chunks), IdKey(id))
        && index == Restrict(old(index), DocPositions(old(chunks), IdKey(id)))
        && nextDocId == old(nextDocId) && nextChunkId == old(nextChunkId)
    {
      var key := IdKey(id);
      if key !in documents {
        return false;
      }
      var chunks', index' := RemoveDocumentChunks(documents, chunks, index, owners, key);
      ghost var documents0, chunks0, index0, owners0 := documents, chunks, index, owners;
      ghost var dropped := DocPositions(chunks, key);
      documents, chunks, index, owners := documents - {key}, chunks', index', Restrict(owners, dropped);
      DeleteDocumentValid(documents0, chunks0, nextDocId, nextChunkId, index0, owners0, dimension, key,
                          documents, chunks, index, owners);
      return true;
    }
  }
}
