# Document store, chunker and RAG prompt assembly — a Dafny model

This project models the deterministic core of a local retrieval-augmented
question-answering system. The pieces are:

- **`VectorDB`** (core/vector_db.py) — the document store. It holds:
  - a map of document records and a map of chunk records, both keyed by the
    decimal string of a counter that starts at 1;
  - an append-only FAISS index of embedding vectors, modelled here as a
    `seq<seq<real>>` of fixed width.

  Every chunk records the position of its vector (`vector_index`).
  `add_document` appends a document, its chunks and their vectors.
  `search` turns the `(distance, position)` pairs FAISS reports into result
  records. `delete_document` removes a document and its chunks, rebuilds the
  index from the surviving vectors in ascending position order, and renumbers
  each surviving chunk to its vector's new position.
- **`DocumentProcessor._split_text`** (core/document_processor.py) — the
  cursor-driven chunker. It splits at a blank line, else a sentence end, else
  a space, else at the size limit; consecutive chunks overlap. Also modelled
  is the file-type filter of `process_directory`.
- **`RAGEngine`** (core/rag_engine.py), its deterministic parts:
  - reference collection with de-duplication by document;
  - context building;
  - the two prompt templates and the prompt for an empty search;
  - the choice of language-model service.
- **`sanitize_filename` / `clean_filename`** (utils/common.py) — they replace
  the characters Windows forbids in the part of a file name before its
  extension.

Modules: `Wrappers` (Option, Result), `PyStr` (the pieces of Python `str`
behaviour the code relies on), `Common`, `DocumentProcessor`, `VectorDb` and
`RagEngine`.

## Design notes

- **`VectorDB` is a class.** Its fields are the metadata maps, the two
  counters and the index.
- **Store invariant.** `Valid()` holds between calls, and every modifying
  method preserves it. It states:
  - both counters are at least 1;
  - every key is below its counter;
  - the vector positions are a bijection between `[0, |index|)` and the
    chunks, witnessed by a ghost `owners` sequence;
  - every vector has the store's dimension;
  - every document with chunk ids lists exactly its chunks, at their ranks.

  `|index| == |chunks|` and the uniqueness of positions follow
  (`PositionsOneToOne`).
- **Delete is proved against specification functions.**
  - `DeleteDocument` is tied to `Renumbered` and `Restrict`.
  - The loops of the source — the id collection, the vector copy and the
    `index_mapping` remap — are methods (`RemoveChunks`, `CopyKept`,
    `RemapPositions`) proved equal to those functions.
  - `RemappedIsRenumbered` shows that remapping through `index_mapping` is the
    same as "old position minus the deleted positions below it".
  - `DeleteKeepsVectors` shows that every surviving chunk still points at its
    own vector.
- **The sentence split follows the code, not its comment.** The comment at
  core/document_processor.py:563 says it picks the latest sentence end. The
  code takes the maximum, over the six patterns, of each pattern's *first*
  occurrence in the window. The model follows the code, and
  `SentenceSplitUsesFirstOccurrences` exhibits a window where the two differ.
- **Only previews are stored.** Chunk records keep only a 200-character
  preview of their text (`Preview(text, 200)`, core/vector_db.py:209). The RAG
  context is built from that stored text, so the model's context is made of
  previews too, as in the source.

## Model

| member | source | states |
|---|---|---|
| PyStr.Strip | core/document_processor.py:529 | `s.strip()` is empty exactly for all-whitespace text and otherwise starts and ends with non-whitespace |
| PyStr.StripParts | core/document_processor.py:578 | the stripped text is the slice of the original between its leading and its trailing whitespace |
| PyStr.FindPair | core/document_processor.py:553-559 | `find` of a two-character needle in `[lo, hi)`: the first occurrence, or -1 when there is none in the window |
| PyStr.RFind | core/document_processor.py:567 | `rfind` of one character in `[lo, hi)`: the last occurrence, or -1 when there is none |
| PyStr.Lower | core/document_processor.py:176 | lower-casing maps every character independently and keeps the length |
| PyStr.ParseDecimalString | core/vector_db.py:184-222 | `int(str(n)) == n`, so the id returned as a number is the counter value |
| PyStr.DecimalStringInjective | core/vector_db.py:184 | distinct counter values give distinct id strings |
| PyStr.IntToString | core/vector_db.py:303 | `str()` of a non-negative integer is its decimal string; a negative one starts with `-` |
| Common.ExtStart | utils/common.py:92 | `splitext` cuts at a dot of the last path component after which there is no further dot or `/`; it cuts before the end exactly when the name has a dot preceded, within the last component, by a character that is not a dot |
| Common.ExtensionCut | utils/common.py:92 | the test `splitext` makes (a last dot after the last `/`, with a non-dot between them) holds exactly when the name has such a dot |
| Common.SplitExt | utils/common.py:92 | root and extension concatenate back to the name; the extension is empty or one dot followed by no dot or `/`, and it is non-empty exactly when the name has an extension in the sense above |
| Common.ReplaceChar | utils/common.py:97 | `replace` of one character changes exactly the occurrences of the target and keeps the length |
| Common.ReplaceEach | utils/common.py:95-97 | the loop of nine `replace` calls keeps the length of the root |
| Common.UnderscoreAllowed | utils/common.py:95-97 | the replacement `_` is not itself a forbidden character |
| Common.ReplaceEachIsCharwise | utils/common.py:95-97 | the nine successive replacements equal one per-character map: a forbidden character becomes `_`, any other stays |
| Common.SanitizeFilename | utils/common.py:81-100 | the length is kept and the extension is returned unchanged |
| Common.SanitizeCharwise | utils/common.py:92-100 | before the extension each forbidden character is `_` and every other is kept; from the extension on nothing changes |
| Common.SanitizeCleansRoot | utils/common.py:95-100 | the root of the result (everything before the extension) holds none of `< > : " / \ \| ? *` |
| Common.SanitizeKeepsCut | utils/common.py:92-100 | when the name has an extension, the result splits at the same dot |
| Common.SanitizeIdempotent | utils/common.py:81-100 | sanitizing twice is the same as sanitizing once |
| Common.CleanFilename | utils/common.py:103-114 | `clean_filename` equals `sanitize_filename` on every input |
| DocumentProcessor.SentenceFinds | core/document_processor.py:558-559 | the list of the six patterns' first occurrences in the window, in pattern order |
| DocumentProcessor.MaxOf | core/document_processor.py:560-564 | the maximum of a list that ignores -1: an upper bound of every element, attained unless all are -1 |
| DocumentProcessor.SentenceEnd | core/document_processor.py:556-564 | -1 iff no pattern occurs in the window; otherwise an occurrence of some pattern, at least as late as every pattern's first occurrence, and a `.`, `?` or `!` followed by a space or newline |
| DocumentProcessor.PatternsAreSentenceEnds | core/document_processor.py:558 | every pattern is a sentence mark followed by a space or a newline |
| DocumentProcessor.SplitPoint | core/document_processor.py:553-575 | the split point lies in `[start + size/2 + 1, start + size]`, so the piece is never longer than `size` |
| DocumentProcessor.SplitAtParagraph | core/document_processor.py:553-575 | with a blank line in the window, the split comes right after the first one |
| DocumentProcessor.SplitAtSentence | core/document_processor.py:555-564 | with no blank line but some sentence end, the split is one past the latest first occurrence |
| DocumentProcessor.SentenceSplitEndsSentence | core/document_processor.py:555-564 | such a piece ends with the sentence mark, and a space or newline follows |
| DocumentProcessor.SplitAtSpace | core/document_processor.py:565-569 | with neither, but a space in the window, the split comes right after the last space |
| DocumentProcessor.SplitHard | core/document_processor.py:570-572 | with none of the three, the split is at `start + size` |
| DocumentProcessor.SentenceSplitUsesFirstOccurrences | core/document_processor.py:558-564 | in `"abcdef. x. yyyyyyy"` with size 12 the split is 7, although a later `". "` sits at 9 |
| DocumentProcessor.TwoSentenceEnds | core/document_processor.py:553-564 | the window of that example has no blank line, its sentence end is 6, and a second `". "` sits at 9 |
| DocumentProcessor.NextStartAsWrittenCases | core/document_processor.py:583-590 | the source's next cursor is `split - overlap` for `overlap < size`, the split itself for `overlap == size`, and `split - size/2` for `overlap > size` |
| DocumentProcessor.AsWrittenAdvances | core/document_processor.py:583-590 | with `overlap <= size/2` (or `overlap >= size`) the source's next cursor is past the old one, and for `overlap <= size/2` it is `split - overlap` |
| DocumentProcessor.AsWrittenStalls | core/document_processor.py:578-590 | with size 10, overlap 8 and text `"aaaaaaa. aaaaa"` the split is 8, a non-blank piece is emitted and the cursor returns to 0 |
| DocumentProcessor.ZeroSizeStalls | core/document_processor.py:541-590 | with `chunk_size` 0 the window is empty, none of the three searches finds anything, the piece is empty and the next cursor is the old one |
| DocumentProcessor.OneSentenceEnd | core/document_processor.py:553-564 | the window of that example has no blank line and its only sentence end is at 7 |
| DocumentProcessor.NextStart | core/document_processor.py:583-590 | the next cursor is past the old one and not past the split, and equals the source's step whenever that step advances |
| DocumentProcessor.Cursors | core/document_processor.py:541-590 | the cursors the loop visits: the first is `start`; each but the last has more than `size` characters after it and is followed by a later cursor that is not past its split point; the last leaves at most `size` characters |
| DocumentProcessor.ChunksFrom | core/document_processor.py:541-590 | every chunk is non-empty and at most `size` long; from a cursor inside the text there is a chunk, and the last one fits in the rest |
| DocumentProcessor.ChunksFromPieces | core/document_processor.py:541-590 | the chunks are, in cursor order, the non-blank stripped slices from each cursor to its split point, then the rest of the text from the last cursor |
| DocumentProcessor.SlicesCover | core/document_processor.py:578-590 | slices whose next start is never past the previous end leave no gap before the last start |
| DocumentProcessor.CursorsChained | core/document_processor.py:578-590 | each cursor after the first is at most the previous cursor's split point, so consecutive slices leave no gap |
| DocumentProcessor.CursorsCover | core/document_processor.py:541-590 | every position from `start` on lies between some cursor and its split point, or after the last cursor |
| DocumentProcessor.TextCovered | core/document_processor.py:541-590 | every non-whitespace character lies after the last cursor (so in the last chunk) or in a slice whose stripped piece is emitted as a chunk |
| DocumentProcessor.NotBlankSlice | core/document_processor.py:578-580 | a slice holding a non-whitespace character is not blank after `strip()`, so it is emitted |
| DocumentProcessor.LastChunkIsSuffix | core/document_processor.py:543-547 | the last chunk is the unstripped rest of the text |
| DocumentProcessor.SplitTextSpec | core/document_processor.py:519-594 | `[]` iff the text is whitespace only; exactly `[text]` (unstripped) for non-blank text of at most `size` characters; otherwise the pieces of the cursor run from 0; every chunk non-empty and at most `size` long |
| DocumentProcessor.SplitText | core/document_processor.py:519-594 | the two early returns and the loop produce exactly the specified chunk list |
| DocumentProcessor.ChunkLoop | core/document_processor.py:538-590 | the cursor loop produces exactly the chunks from cursor 0 |
| DocumentProcessor.NormalizeExtension | core/document_processor.py:176 | the result starts with a dot; it is the lower-cased extension, with a dot put in front when the extension had none |
| DocumentProcessor.KeepSupported | core/document_processor.py:177 | an extension survives iff it was requested and is supported |
| DocumentProcessor.KeepSupportedAppend | core/document_processor.py:177 | the filter keeps input order: it distributes over concatenation |
| DocumentProcessor.NormalizeAll | core/document_processor.py:176 | each requested extension normalised, position by position, in the order given |
| DocumentProcessor.SelectFileTypes | core/document_processor.py:171-183 | `None` or an empty list selects every supported type; otherwise exactly the supported types some requested extension normalises to, as the filter over the normalised request in request order |
| DocumentProcessor.SelectFileTypesAppend | core/document_processor.py:176-177 | the selection for `xs + ys` is the selection for `xs` followed by that for `ys`: request order and repetitions are kept |
| DocumentProcessor.SelectFileTypesOne | core/document_processor.py:176-177 | one requested extension selects its normalised form when supported, otherwise nothing |
| VectorDb.IdKey | core/vector_db.py:303-316 | an integer id is looked up under its decimal string, a string id under itself |
| VectorDb.Preview | core/vector_db.py:209 | the text itself when it is at most `n` long, else its first `n` characters followed by `...` |
| VectorDb.Similarity | core/vector_db.py:281 | the similarity is the reciprocal of `1 + distance` |
| VectorDb.SimilarityRange | core/vector_db.py:281 | `1/(1+d)` lies in (0, 1], is 1 exactly at distance 0 and falls strictly as the distance grows |
| VectorDb.Kept | core/vector_db.py:385 | the kept positions are below the vector count, not deleted, and strictly ascending |
| VectorDb.KeptMembers | core/vector_db.py:385 | a position is kept iff it is below the vector count and not deleted |
| VectorDb.KeptCount | core/vector_db.py:385 | kept positions plus deleted positions below the count make up the count |
| VectorDb.KeptPrefix | core/vector_db.py:385 | the kept positions below `m` are a prefix of the kept positions below `n >= m` |
| VectorDb.KeptAtNewPosition | core/vector_db.py:398-402 | a surviving position `p` sits in the kept list at `p` minus the deleted positions below it |
| VectorDb.NewPositionOfKept | core/vector_db.py:398-402 | the `j`-th kept position moves to `j` |
| VectorDb.KeptNothing | core/vector_db.py:378 | with nothing deleted, every position is kept in order |
| VectorDb.Restrict | core/vector_db.py:385-407 | the rebuilt index holds the vectors of the kept positions, in order |
| VectorDb.RestrictNothing | core/vector_db.py:378 | with nothing deleted the index is unchanged (the source skips the rebuild) |
| VectorDb.CounterIdAt | core/vector_db.py:199-202 | the `i`-th new chunk id is `str(next_chunk_id + i)` |
| VectorDb.CounterIdsFresh | core/vector_db.py:199-202 | the new chunk ids are distinct and their values lie in `[first, first + n)` |
| VectorDb.CounterIdNext | core/vector_db.py:201-202 | the next id the counter hands out is not among those it handed out before |
| VectorDb.NewChunksAdded | core/vector_db.py:199-212 | the new records are keyed by exactly the new ids; the record of rank `i` has the document, rank `i`, position `base + i` and the 200-character preview |
| VectorDb.AddChunkRecords | core/vector_db.py:199-212 | the chunk loop returns the consecutive counter ids and adds exactly those records |
| VectorDb.RemoveChunks | core/vector_db.py:366-374 | the loop removes exactly the listed chunks and collects their positions in list order |
| VectorDb.RemoveDocumentChunks | core/vector_db.py:362-410 | removing a document's chunks yields the renumbered survivors and the index restricted to the kept positions |
| VectorDb.PositionsOneToOne | core/vector_db.py:188-215 | under the invariant there are as many chunks as vectors and no two chunks share a position |
| VectorDb.AddPositionsValid | core/vector_db.py:196-212 | appending the vectors and their chunk records keeps positions a bijection |
| VectorDb.AddDocumentValid | core/vector_db.py:184-215 | a successful add preserves the store invariant |
| VectorDb.AddOrphanValid | core/vector_db.py:184-196 | the record left behind by a refused add preserves the store invariant |
| VectorDb.DroppedPositions | core/vector_db.py:363-371 | a position is deleted iff its chunk belongs to the deleted document |
| VectorDb.DocumentChunks | core/vector_db.py:363-374 | a document's chunk ids are distinct and name exactly the chunks of that document |
| VectorDb.PositionsOfIds | core/vector_db.py:366-371 | the positions collected from the chunk ids are exactly the document's positions |
| VectorDb.DeletePositionsValid | core/vector_db.py:385-410 | after the rebuild, positions are again a bijection between the survivors and the new index |
| VectorDb.DeleteOwnershipValid | core/vector_db.py:373-413 | after the delete, the remaining documents still list exactly their chunks |
| VectorDb.DeleteDocumentValid | core/vector_db.py:355-413 | a delete preserves the store invariant |
| VectorDb.DeleteKeepsVectors | core/vector_db.py:385-407 | every surviving chunk's new position holds the same vector as its old position did |
| VectorDb.Ranks | core/vector_db.py:398 | `index_mapping` has exactly the kept positions as keys and maps each to its rank |
| VectorDb.Renumbered | core/vector_db.py:373-402 | the survivors are exactly the chunks of other documents; each keeps its record except its position, which drops by the number of deleted positions below it |
| VectorDb.RemappedIsRenumbered | core/vector_db.py:397-402 | rewriting positions through `index_mapping` gives each survivor its old position minus the deleted positions below it |
| VectorDb.RenumberedNothing | core/vector_db.py:378 | when the document had no vectors, the survivors keep their positions |
| VectorDb.RenumberedAllDropped | core/vector_db.py:408-410 | when no vector survives, no chunk survives either |
| VectorDb.CopyKept | core/vector_db.py:389-395 | the copy loop produces the restricted index |
| VectorDb.RemapPositions | core/vector_db.py:399-402 | the remap loop produces the remapped chunk records |
| VectorDb.VectorDB.constructor | core/vector_db.py:93-117 | a new store is empty, with both counters at 1, and satisfies the invariant |
| VectorDb.VectorDB.AddDocument | core/vector_db.py:155-222 | rejects empty or mismatched input and changes nothing. A vector batch of the wrong width leaves an orphan record and bumps the document counter. Otherwise it stores the document under the old counter, with the new chunks, ids and positions, appends the vectors and returns the new id. It keeps the invariant |
| VectorDb.VectorDB.FindChunk | core/vector_db.py:258-269 | finds a chunk whose vector sits at the position, or reports that none does |
| VectorDb.VectorDB.ResolveHit | core/vector_db.py:252-284 | a hit yields a result iff its position is not -1 and some chunk has it; the result carries that chunk, its document and `1/(1+distance)` |
| VectorDb.VectorDB.ResultsResolve | core/vector_db.py:272-284 | every search result names a stored chunk and a stored document |
| VectorDb.VectorDB.Search | core/vector_db.py:228-287 | `[]` from an empty index; otherwise one result per resolving hit, in hit order |
| VectorDb.VectorDB.GetDocumentById | core/vector_db.py:293-304 | the record under `str(id)`, or `None` exactly when there is none |
| VectorDb.VectorDB.GetChunkById | core/vector_db.py:306-317 | the chunk under `str(id)`, or `None` exactly when there is none |
| VectorDb.VectorDB.GetStats | core/vector_db.py:426-444 | the document, chunk and vector counts and the dimension of the store |
| VectorDb.VectorDB.DeleteDocument | core/vector_db.py:345-420 | returns false and changes nothing for an unknown id. Otherwise it removes the document and exactly its chunks, restricts the index to the kept positions and renumbers the survivors. The counters are unchanged and the invariant is kept |
| RagEngine.FirstPerDoc | core/rag_engine.py:421-423 | the de-duplicated references are no more than the candidates and each is one of them |
| RagEngine.FirstPerDocDocs | core/rag_engine.py:421-423 | de-duplication loses no document and adds none |
| RagEngine.FirstPerDocUnique | core/rag_engine.py:421-423 | the references name each document at most once |
| RagEngine.FirstPerDocFirstAppearance | core/rag_engine.py:400-425 | each kept reference is its document's first candidate, and documents keep their first-appearance order |
| RagEngine.Contexts | core/rag_engine.py:437-453 | the context has at most one entry per result |
| RagEngine.ContextsMatchResolved | core/rag_engine.py:409-450 | a result adds a context entry exactly when it adds a reference candidate; the candidate's preview is the first 100 characters of that entry, plus `...` when longer |
| RagEngine.ContextsAllResolved | core/rag_engine.py:437-453 | when every result resolves, the context is every result's stored chunk text, in order |
| RagEngine.SearchContextComplete | core/rag_engine.py:437-453 | the context built from what `search` returns has one entry per result |
| RagEngine.SectionsPrefix | core/rag_engine.py:467-468 | the sections of the first `n` context items begin the sections of all of them |
| RagEngine.SectionAt | core/rag_engine.py:467-468 | section `i` of the prompt is `문서 {i+1}:\n{ctx}\n\n`, at the end of the sections before it |
| RagEngine.RagPrompt | core/rag_engine.py:455-470 | the prompt starts with `질문: `, the question and a blank line |
| RagEngine.RagPromptSections | core/rag_engine.py:455-470 | in the prompt, context item `i` appears as the section numbered `i + 1`, right after the question line and the sections of the items before it |
| RagEngine.RagPromptWithSystem | core/rag_engine.py:472-488 | the prompt is the system prompt and a blank line, followed by the plain RAG prompt unchanged |
| RagEngine.SectionAfterHead | core/rag_engine.py:467-468 | whatever precedes them, each section sits right after the sections before it |
| RagEngine.NoResultPrompt | core/rag_engine.py:199-202 | the prompt for an empty search is the RAG prompt over an empty context without its final blank line |
| RagEngine.QueryPrompt | core/rag_engine.py:195-239 | every prompt is: the system prompt and a blank line (when given), `질문: ` and the question, then — only when the search found something — a blank line and the numbered sections |
| RagEngine.NoResultShape | core/rag_engine.py:199-202 | the prompt for an empty search is the question line, after the system prompt when one is given |
| RagEngine.ResultShape | core/rag_engine.py:227-239 | the prompt for a non-empty search is the question line, a blank line and the sections, after the system prompt when one is given |
| RagEngine.BuildRagPrompt | core/rag_engine.py:455-470 | the `+=` loop builds the question line followed by one numbered section per context item |
| RagEngine.BuildRagPromptWithSystem | core/rag_engine.py:472-488 | the same with the system prompt and a blank line in front |
| RagEngine.RAGEngine.constructor | core/rag_engine.py:69-77 | the engine starts with the given store and language-model service |
| RagEngine.RAGEngine.SetLlmService | core/rag_engine.py:362-379 | succeeds iff the name is an available service; only then does the current service change |
| RagEngine.RAGEngine.GetCurrentLlmService | core/rag_engine.py:381-388 | returns the current service |
| RagEngine.RAGEngine.ChooseService | core/rag_engine.py:179-183 | no request keeps and uses the current service; a request is used and becomes current, without a check |
| RagEngine.RAGEngine.CollectReferences | core/rag_engine.py:390-425 | the loop returns, per document, the reference of its first resolved result, in first-appearance order |
| RagEngine.RAGEngine.BuildContext | core/rag_engine.py:427-453 | the loop returns the stored texts of the resolved results, in result order |

## Left out

- **Persistence.** Loading, saving and backing up the metadata and the index
  is file I/O. This includes the loaded-dimension-wins rule, which is reachable
  only through a load. The store always has the dimension it was created with.
- **Timestamps and paths.** `created_at` timestamps (a clock call) and the
  database path are not modelled.
- **FAISS.** The L2 search and `reconstruct` are a foreign library working on
  32-bit floats.
  - `Search` receives the `(distance, position)` pairs as a parameter.
  - Vectors are sequences of reals.
  - Similarity is the real-valued `1/(1+d)`.
  - `top_k` and the reshaping of the query vector belong to the search and
    are not modelled.
- **Exceptions.** Beyond the three refusals of `add_document`, exceptions
  raised inside a `try` block and re-raised are not modelled. A wrong-width
  vector batch is the one case the model keeps: there FAISS refuses the
  vectors after the document record was written.
- **Dictionary order.** The chunk scan of `search` visits the chunks in some
  order. The model finds *a* chunk at the position, and under the invariant
  there is exactly one.
- VectorDb.VectorDB.GetAllDocuments: returns the documents map itself and has
  no further contract. The same holds for
  VectorDb.VectorDB.GetAllChunks and the chunks map. The `except` fallback to
  `{}` cannot occur in the model.
- **Lower-casing.** `Lower` lower-cases ASCII letters only. Python's
  Unicode case mapping is not modelled.
- **The available services.** `get_available_llm_services` asks the language
  model connector, so `SetLlmService` receives the available names as a
  parameter.
- **The query orchestration.** `query` and `query_stream` are asynchronous
  orchestration over the embedding model and the language model. Only their
  deterministic steps are modelled:
  - the service choice (`ChooseService`);
  - the prompt (`QueryPrompt`).

  The two methods repeat the same prompt logic (core/rag_engine.py:288-336).
- **The text splitter.** `RAGEngine.__init__` builds a LangChain text
  splitter, a library that is not part of this model.
- **Default title and text.** The fallbacks `f"문서 {doc_id}"` for a missing
  title and `""` for missing chunk text in `_collect_references` are not
  modelled. Every stored record has both fields, so they cannot fire.
- **Everything else.** Text extraction (PDF, DOCX, e-mail, Markdown), id
  hashing, embedding generation, the language-model clients, the UI and the
  test scripts are foreign libraries, network and I/O. They are not part of
  this model.
- DocumentProcessor.SplitText: uses the corrected cursor step (see Findings),
  so it terminates for every overlap. The model agrees with the source
  exactly on the runs in which every source step moves the cursor forward
  (`NextStart`). That holds for `overlap <= size / 2` and for
  `overlap >= size` (`AsWrittenAdvances`). For `size / 2 < overlap < size` a
  source step can instead keep the cursor in place or move it backward, even
  below 0: with split 6 and overlap 8 it is -2, and Python then slices from the
  end of the text. The model reproduces neither the non-termination nor those
  slices.
- DocumentProcessor.SplitText: requires `chunk_size >= 1`. With `chunk_size` 0
  the source never terminates (see Findings).
- Common.SplitExt: follows POSIX `os.path.splitext`, which splits only at
  `/`. On Windows, `ntpath` also splits at `\`. For `"a.b\c"` the POSIX rule
  keeps `".b\c"` as the extension and leaves it untouched. `ntpath` finds no
  extension, and the result would be `"a.b_c"`.

## Findings

| source | as written | input that shows it | evidently intended | confidence | as-written member | corrected member |
|---|---|---|---|---|---|---|
| core/document_processor.py:583-590 | the next cursor is `split_point - chunk_overlap`. Both clamps fire only when the overlap reaches `chunk_size`, so for `chunk_size // 2 < chunk_overlap < chunk_size` the cursor can return to where it was, or move back before it | `chunk_size = 10`, `chunk_overlap = 8`, text `"aaaaaaa. aaaaa"`: the split point is 8, the piece `"aaaaaaa."` is emitted and the cursor goes back to 0, so the loop never ends | the cursor always moves forward (the comment at line 588 says a start at or before the previous split is forced forward) | not executed | DocumentProcessor.NextStartAsWritten, DocumentProcessor.AsWrittenStalls | DocumentProcessor.NextStart |
| core/document_processor.py:541-590 | with `chunk_size` 0 the window `[start, end)` is empty, so the split point is `end`, which is `start`, and the next cursor is `start` again | any non-blank text with `chunk_size = 0`: the split point is 0, nothing is emitted and the cursor stays at 0, so the loop never ends | a positive chunk size, for which every split point is past the cursor | not executed | DocumentProcessor.ZeroSizeStalls | DocumentProcessor.SplitPoint |
