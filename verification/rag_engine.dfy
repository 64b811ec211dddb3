/**
 * Prompt assembly of the RAG engine (core/rag_engine.py): the references and
 * the context drawn from a search's results, the prompts sent to the language
 * model with and without a system prompt, the prompt used when the search
 * found nothing, and the engine's choice of language-model service.
 */
module RagEngine {
  import opened Wrappers
  import opened PyStr
  import opened VectorDb

  /** How many characters of a chunk's stored text a reference shows. */
  const ReferencePreviewLength: nat := 100

  /** The label before the user's question in every prompt. */
  const QuestionLabel: string := "질문: "

  /** The blank line that ends the question and every section. */
  const BlankLine: string := "\n\n"

  /** One entry of the list `_collect_references` returns. */
  datatype Reference = Reference(docId: string, title: string, similarity: real, preview: string)

  /** Both lookups of a result succeed: its chunk and its document are on record. */
  predicate Resolves(documents: map<string, Document>, chunks: map<string, Chunk>, r: SearchResult) {
    r.chunkId in chunks && r.docId in documents
  }

  /** The reference a resolved result makes: its document's title and a preview of its chunk's stored text. */
  function ReferenceOf(documents: map<string, Document>, chunks: map<string, Chunk>, r: SearchResult): Reference
    requires Resolves(documents, chunks, r)
  {
    Reference(r.docId, documents[r.docId].title, r.similarity, Preview(chunks[r.chunkId].text, ReferencePreviewLength))
  }

  /** The references of the results that resolve, in the results' order, duplicates included. */
  function Resolved(documents: map<string, Document>, chunks: map<string, Chunk>, results: seq<SearchResult>): seq<Reference>
  {
    if results == [] then []
    else
      var last := results[|results| - 1];
      Resolved(documents, chunks, results[..|results| - 1])
        + (if Resolves(documents, chunks, last) then [ReferenceOf(documents, chunks, last)] else [])
  }

  /** `any(ref["doc_id"] == doc_id for ref in refs)`. */
  predicate HasDoc(refs: seq<Reference>, docId: string) {
    exists k :: 0 <= k < |refs| && refs[k].docId == docId
  }

  /** Each reference whose document has not appeared earlier in `refs`, in order. */
  function FirstPerDoc(refs: seq<Reference>): (r: seq<Reference>)
    ensures |r| <= |refs|
    ensures forall i :: 0 <= i < |r| ==> r[i] in refs
  {
    if refs == [] then []
    else
      var init, last := refs[..|refs| - 1], refs[|refs| - 1];
      FirstPerDoc(init) + (if HasDoc(init, last.docId) then [] else [last])
  }

  /** Dropping later duplicates loses no document and adds none. */
  lemma {:induction false} FirstPerDocDocs(refs: seq<Reference>, docId: string)
    ensures HasDoc(FirstPerDoc(refs), docId) <==> HasDoc(refs, docId)
  {
    if refs != [] {
      var init, last := refs[..|refs| - 1], refs[|refs| - 1];
      FirstPerDocDocs(init, docId);
      var firsts, all := FirstPerDoc(init), FirstPerDoc(refs);
      if HasDoc(all, docId) {
        var k :| 0 <= k < |all| && all[k].docId == docId;
        var j :| 0 <= j < |refs| && refs[j] == all[k];
      }
      if HasDoc(refs, docId) {
        assert forall k :: 0 <= k < |firsts| ==> all[k] == firsts[k];
        var k :| 0 <= k < |refs| && refs[k].docId == docId;
        if k < |init| || HasDoc(init, docId) {
          if k < |init| {
            assert init[k].docId == docId;
          }
          var j :| 0 <= j < |firsts| && firsts[j].docId == docId;
          assert all[j].docId == docId;
        } else {
          assert all[|firsts|] == last;
        }
      }
    }
  }

  /** No document has two references. */
  lemma {:induction false} FirstPerDocUnique(refs: seq<Reference>)
    ensures forall i, j :: 0 <= i < j < |FirstPerDoc(refs)| ==> FirstPerDoc(refs)[i].docId != FirstPerDoc(refs)[j].docId
  {
    if refs != [] {
      var init, last := refs[..|refs| - 1], refs[|refs| - 1];
      FirstPerDocUnique(init);
      var firsts := FirstPerDoc(init);
      if !HasDoc(init, last.docId) {
        FirstPerDocDocs(init, last.docId);
        forall i | 0 <= i < |firsts| ensures firsts[i].docId != last.docId {
        }
      }
    }
  }

  /** `b` never occurs in `refs` before `a` has occurred. */
  predicate Precedes(refs: seq<Reference>, a: string, b: string) {
    forall k :: 0 <= k < |refs| && refs[k].docId == b ==> HasDoc(refs[..k], a)
  }

  /**
   * Each kept reference is the first one of its document, and the kept
   * references come in the order their documents first appear.
   */
  lemma {:induction false} FirstPerDocFirstAppearance(refs: seq<Reference>)
    ensures forall i :: 0 <= i < |FirstPerDoc(refs)| ==>
      exists k :: 0 <= k < |refs| && refs[k] == FirstPerDoc(refs)[i] && !HasDoc(refs[..k], refs[k].docId)
    ensures forall i, j :: 0 <= i < j < |FirstPerDoc(refs)| ==>
      Precedes(refs, FirstPerDoc(refs)[i].docId, FirstPerDoc(refs)[j].docId)
  {
    if refs != [] {
      var init, last := refs[..|refs| - 1], refs[|refs| - 1];
      var n := |refs| - 1;
      FirstPerDocFirstAppearance(init);
      var firsts, all := FirstPerDoc(init), FirstPerDoc(refs);
      forall i | 0 <= i < |all|
        ensures exists k :: 0 <= k < |refs| && refs[k] == all[i] && !HasDoc(refs[..k], refs[k].docId)
      {
        if i < |firsts| {
          var k :| 0 <= k < |init| && init[k] == firsts[i] && !HasDoc(init[..k], init[k].docId);
          assert refs[..k] == init[..k];
          assert all[i] == firsts[i];
          assert refs[k] == all[i] && !HasDoc(refs[..k], refs[k].docId);
        } else {
          assert !HasDoc(init, last.docId);
          assert refs[..n] == init;
          assert refs[n] == all[i] && !HasDoc(refs[..n], refs[n].docId);
        }
      }
      forall i, j | 0 <= i < j < |all|
        ensures Precedes(refs, all[i].docId, all[j].docId)
      {
        FirstPerDocDocs(init, all[i].docId);
        assert all[i] == firsts[i];
        assert HasDoc(firsts, all[i].docId) by {
          assert firsts[i].docId == all[i].docId;
        }
        forall k | 0 <= k < |refs| && refs[k].docId == all[j].docId
          ensures HasDoc(refs[..k], all[i].docId)
        {
          if k < n {
            assert refs[..k] == init[..k];
            if j < |firsts| {
              assert Precedes(init, firsts[i].docId, firsts[j].docId);
            } else {
              // The new reference's document never occurred before it.
              assert false;
            }
          } else {
            assert refs[..k] == init;
          }
        }
      }
    } else {
      assert FirstPerDoc(refs) == [];
    }
  }

  /** The texts of the chunks of the results that resolve, in the results' order. */
  function Contexts(documents: map<string, Document>, chunks: map<string, Chunk>, results: seq<SearchResult>): (r: seq<string>)
    ensures |r| <= |results|
  {
    if results == [] then []
    else
      var last := results[|results| - 1];
      Contexts(documents, chunks, results[..|results| - 1])
        + (if Resolves(documents, chunks, last) then [chunks[last.chunkId].text] else [])
  }

  /**
   * A result contributes a context entry exactly when it contributes a
   * reference candidate, and the candidate's preview is cut from that entry.
   */
  lemma {:induction false} ContextsMatchResolved(documents: map<string, Document>, chunks: map<string, Chunk>,
                                                 results: seq<SearchResult>)
    ensures |Contexts(documents, chunks, results)| == |Resolved(documents, chunks, results)|
    ensures forall i :: 0 <= i < |Contexts(documents, chunks, results)| ==>
      Resolved(documents, chunks, results)[i].preview == Preview(Contexts(documents, chunks, results)[i], ReferencePreviewLength)
  {
    if results != [] {
      ContextsMatchResolved(documents, chunks, results[..|results| - 1]);
    }
  }

  /** When every result resolves, the context holds every result's chunk text, in order. */
  lemma {:induction false} ContextsAllResolved(documents: map<string, Document>, chunks: map<string, Chunk>,
                                               results: seq<SearchResult>)
    requires forall i :: 0 <= i < |results| ==> results[i].chunkId in chunks && results[i].docId in documents
    ensures |Contexts(documents, chunks, results)| == |results|
    ensures forall i :: 0 <= i < |results| ==> Contexts(documents, chunks, results)[i] == chunks[results[i].chunkId].text
  {
    if results != [] {
      var init := results[..|results| - 1];
      assert forall i :: 0 <= i < |init| ==> init[i] == results[i];
      ContextsAllResolved(documents, chunks, init);
    }
  }

  /** The context built from what `search` returns has one entry per result: none is lost. */
  lemma SearchContextComplete(db: VectorDB, hits: seq<Hit>)
    requires db.Valid() && DistancesValid(hits)
    ensures var results := db.ResultsFor(hits);
      |Contexts(db.documents, db.chunks, results)| == |results|
  {
    var results := db.ResultsFor(hits);
    db.ResultsResolve(hits);
    assert forall i :: 0 <= i < |results| ==> results[i] in results;
    ContextsAllResolved(db.documents, db.chunks, results);
  }

  /** `f"문서 {i+1}:\n{ctx}\n\n"`: the context item of rank `i`, numbered from one. */
  function Section(i: nat, ctx: string): string {
    "문서 " + DecimalString(i + 1) + ":\n" + ctx + BlankLine
  }

  /** The sections of every context item, in order. */
  function Sections(context: seq<string>): string {
    if context == [] then []
    else Sections(context[..|context| - 1]) + Section(|context| - 1, context[|context| - 1])
  }

  /**
   * `_build_rag_prompt(query, context)`: the question line and a blank line,
   * then context item `i` as the section numbered `i + 1`, right after the
   * sections of the items before it.
   */
  function RagPrompt(query: string, context: seq<string>): (r: string)
    ensures var head := QuestionLabel + query + BlankLine;
      |head| <= |r| && r[..|head|] == head
  {
    QuestionLabel + query + BlankLine + Sections(context)
  }

  /**
   * `_build_rag_prompt_with_system(query, context, system_prompt)`: the
   * system prompt and a blank line, then the plain RAG prompt unchanged.
   */
  function RagPromptWithSystem(system: string, query: string, context: seq<string>): (r: string)
    ensures |system + BlankLine| <= |r| && r[..|system + BlankLine|] == system + BlankLine
    ensures r[|system + BlankLine|..] == RagPrompt(query, context)
  {
    system + BlankLine + RagPrompt(query, context)
  }

  /** The sections of a prefix of the context begin the sections of the whole context. */
  lemma {:induction false} SectionsPrefix(context: seq<string>, n: nat)
    requires n <= |context|
    ensures |Sections(context[..n])| <= |Sections(context)|
    ensures Sections(context)[..|Sections(context[..n])|] == Sections(context[..n])
    decreases |context|
  {
    if n < |context| {
      var init := context[..|context| - 1];
      assert init[..n] == context[..n];
      SectionsPrefix(init, n);
    } else {
      assert context[..n] == context;
    }
  }

  /** `piece` occurs in `r` starting at `at`. */
  predicate PlacedAt(r: string, at: nat, piece: string) {
    at + |piece| <= |r| && r[at..at + |piece|] == piece
  }

  /** The item of rank `i` appears, numbered `i + 1`, right after the sections of the items before it. */
  lemma SectionAt(context: seq<string>, i: nat)
    requires i < |context|
    ensures PlacedAt(Sections(context), |Sections(context[..i])|, Section(i, context[i]))
  {
    SectionsPrefix(context, i + 1);
    var upto := context[..i + 1];
    assert upto[..|upto| - 1] == context[..i];
    assert Sections(upto) == Sections(context[..i]) + Section(i, context[i]);
  }

  /** After any head, the section of item `i` still sits right after the sections before it. */
  lemma SectionAfterHead(head: string, context: seq<string>, i: nat)
    requires i < |context|
    ensures PlacedAt(head + Sections(context), |head| + |Sections(context[..i])|, Section(i, context[i]))
  {
    var all, start, section := Sections(context), |Sections(context[..i])|, Section(i, context[i]);
    assert PlacedAt(all, start, section) by { SectionAt(context, i); }
    assert PlacedAt(head + all, |head| + start, section) by { PlacedAfter(head, all, start, section); }
  }

  /** What occurs in `s` at `at` occurs in `h + s` at `|h| + at`. */
  lemma PlacedAfter(h: string, s: string, at: nat, piece: string)
    requires PlacedAt(s, at, piece)
    ensures PlacedAt(h + s, |h| + at, piece)
  {
    assert (h + s)[|h| + at..|h| + at + |piece|] == s[at..at + |piece|];
  }

  /**
   * In the RAG prompt, context item `i` appears as the section numbered
   * `i + 1`, right after the question line and the sections of the items
   * before it.
   */
  lemma RagPromptSections(query: string, context: seq<string>)
    ensures forall i :: 0 <= i < |context| ==>
      PlacedAt(RagPrompt(query, context), |QuestionLabel + query + BlankLine| + |Sections(context[..i])|, Section(i, context[i]))
  {
    var head := QuestionLabel + query + BlankLine;
    forall i | 0 <= i < |context|
      ensures PlacedAt(RagPrompt(query, context), |head| + |Sections(context[..i])|, Section(i, context[i]))
    {
      SectionAfterHead(head, context, i);
      assert RagPrompt(query, context) == head + Sections(context);
    }
  }

  /** `if system_prompt:` — Python treats `None` and the empty string alike. */
  predicate HasSystem(system: Option<string>) {
    system.Some? && system.value != []
  }

  /**
   * The prompt `query` sends when the search returned nothing: the RAG
   * prompt over an empty context, without its trailing blank line.
   */
  function NoResultPrompt(query: string, system: Option<string>): (r: string)
    ensures r + BlankLine ==
      if HasSystem(system) then RagPromptWithSystem(system.value, query, []) else RagPrompt(query, [])
  {
    if HasSystem(system) then system.value + BlankLine + QuestionLabel + query else QuestionLabel + query
  }

  /**
   * The prompt `query` sends: the no-result prompt for an empty search,
   * otherwise the RAG prompt over the context of the results, with the system
   * prompt when one is given. Every prompt has the same shape: the system
   * prompt and a blank line when one is given, the question, and — only when
   * the search returned something — a blank line and the numbered sections.
   */
  function QueryPrompt(query: string, system: Option<string>, documents: map<string, Document>,
                       chunks: map<string, Chunk>, results: seq<SearchResult>): (r: string)
    ensures r ==
      (if HasSystem(system) then system.value + BlankLine else "") + QuestionLabel + query
        + (if results == [] then "" else BlankLine + Sections(Contexts(documents, chunks, results)))
  {
    if results == [] then
      NoResultShape(query, system);
      NoResultPrompt(query, system)
    else
      ResultShape(query, system, Contexts(documents, chunks, results));
      if HasSystem(system) then RagPromptWithSystem(system.value, query, Contexts(documents, chunks, results))
      else RagPrompt(query, Contexts(documents, chunks, results))
  }

  /** The prompt for an empty search: the question, after the system prompt when one is given. */
  lemma NoResultShape(query: string, system: Option<string>)
    ensures NoResultPrompt(query, system) ==
      (if HasSystem(system) then system.value + BlankLine else "") + QuestionLabel + query + ""
  {
    var head := if HasSystem(system) then system.value + BlankLine else "";
    assert NoResultPrompt(query, system) == head + QuestionLabel + query;
  }

  /** The prompt for a non-empty search: the question, a blank line and the sections. */
  lemma ResultShape(query: string, system: Option<string>, context: seq<string>)
    ensures (if HasSystem(system) then RagPromptWithSystem(system.value, query, context) else RagPrompt(query, context)) ==
      (if HasSystem(system) then system.value + BlankLine else "") + QuestionLabel + query + (BlankLine + Sections(context))
  {
    var head := if HasSystem(system) then system.value + BlankLine else "";
    var question, tail := QuestionLabel + query, BlankLine + Sections(context);
    assert RagPrompt(query, context) == question + tail;
    assert head + (question + tail) == head + QuestionLabel + query + tail;
  }

  /** The loop of `_build_rag_prompt`: the question line, then one section per context item. */
  method BuildRagPrompt(query: string, context: seq<string>) returns (prompt: string)
    ensures prompt == RagPrompt(query, context)
  {
    var head := QuestionLabel + query + BlankLine;
    prompt := head;
    for i := 0 to |context|
      invariant prompt == head + Sections(context[..i])
    {
      SectionsStep(context, i);
      var section := "문서 " + DecimalString(i + 1) + ":\n" + context[i] + BlankLine;
      prompt := prompt + section;
    }
    assert context[..|context|] == context;
  }

  /** The loop of `_build_rag_prompt_with_system`. */
  method BuildRagPromptWithSystem(query: string, context: seq<string>, system: string) returns (prompt: string)
    ensures prompt == RagPromptWithSystem(system, query, context)
  {
    var head := system + BlankLine + QuestionLabel + query + BlankLine;
    prompt := head;
    for i := 0 to |context|
      invariant prompt == head + Sections(context[..i])
    {
      SectionsStep(context, i);
      var section := "문서 " + DecimalString(i + 1) + ":\n" + context[i] + BlankLine;
      prompt := prompt + section;
    }
    assert context[..|context|] == context;
    SystemHead(system, query, context);
  }

  /** The system prompt's template regrouped: its head, then the sections. */
  lemma SystemHead(system: string, query: string, context: seq<string>)
    ensures system + BlankLine + QuestionLabel + query + BlankLine + Sections(context) == RagPromptWithSystem(system, query, context)
  {
    assert system + BlankLine + QuestionLabel + query + BlankLine + Sections(context)
      == system + BlankLine + (QuestionLabel + query + BlankLine + Sections(context));
  }

  /** One more context item adds its section at the end. */
  lemma SectionsStep(context: seq<string>, i: nat)
    requires i < |context|
    ensures Sections(context[..i + 1]) == Sections(context[..i]) + Section(i, context[i])
  {
    assert context[..i + 1][..i] == context[..i];
  }

  /**
   * The part of the engine the model keeps: the vector store it reads and the
   * name of the language-model service it uses.
   */
  class RAGEngine {
    const vectorDb: VectorDB
    var currentLlmService: string

    constructor(vectorDb: VectorDB, llmService: string)
      ensures this.vectorDb == vectorDb && currentLlmService == llmService
    {
      this.vectorDb := vectorDb;
      currentLlmService := llmService;
    }

    /**
     * `set_llm_service(service_name)`, given the services the connector
     * reports as available: switches only to an available service.
     */
    method SetLlmService(name: string, available: seq<string>) returns (ok: bool)
      modifies this
      ensures ok <==> name in available
      ensures currentLlmService == if ok then name else old(currentLlmService)
    {
      if name in available {
        currentLlmService := name;
        return true;
      }
      return false;
    }

    /** `get_current_llm_service()`. */
    function GetCurrentLlmService(): (name: string)
      reads this
      ensures name == currentLlmService
    {
      currentLlmService
    }

    /**
     * The service `query` uses: the current one when none is requested,
     * otherwise the requested one, which also becomes current, unchecked.
     */
    method ChooseService(requested: Option<string>) returns (service: string)
      modifies this
      ensures requested.None? ==> service == old(currentLlmService) && currentLlmService == old(currentLlmService)
      ensures requested.Some? ==> service == requested.value && currentLlmService == requested.value
    {
      if requested.None? {
        service := currentLlmService;
      } else {
        service := requested.value;
        currentLlmService := service;
      }
    }

    /**
     * `_collect_references(search_results)`: one reference per document, the
     * one of the document's first resolved result, in first-appearance order.
     */
    method CollectReferences(results: seq<SearchResult>) returns (refs: seq<Reference>)
      ensures refs == FirstPerDoc(Resolved(vectorDb.documents, vectorDb.chunks, results))
    {
      refs := [];
      for i := 0 to |results|
        invariant refs == FirstPerDoc(Resolved(vectorDb.documents, vectorDb.chunks, results[..i]))
      {
        assert results[..i + 1][..i] == results[..i];
        var r := results[i];
        var chunkInfo := vectorDb.GetChunkById(Text(r.chunkId));
        var docInfo := vectorDb.GetDocumentById(Text(r.docId));
        if chunkInfo.Some? && docInfo.Some? {
          var reference := Reference(r.docId, docInfo.value.title, r.similarity,
                                     Preview(chunkInfo.value.text, ReferencePreviewLength));
          ghost var before := Resolved(vectorDb.documents, vectorDb.chunks, results[..i]);
          assert reference == ReferenceOf(vectorDb.documents, vectorDb.chunks, r);
          assert Resolved(vectorDb.documents, vectorDb.chunks, results[..i + 1]) == before + [reference];
          assert (before + [reference])[..|before|] == before;
          FirstPerDocDocs(before, r.docId);
          if !(exists k | 0 <= k < |refs| :: refs[k].docId == r.docId) {
            assert !HasDoc(before, reference.docId);
            refs := refs + [reference];
          } else {
            assert HasDoc(before, reference.docId);
          }
        } else {
          assert !Resolves(vectorDb.documents, vectorDb.chunks, r);
          assert Resolved(vectorDb.documents, vectorDb.chunks, results[..i + 1])
              == Resolved(vectorDb.documents, vectorDb.chunks, results[..i]);
        }
      }
      assert results[..|results|] == results;
    }

    /** `_build_context(search_results)`: the stored text of each resolved result's chunk, in order. */
    method BuildContext(results: seq<SearchResult>) returns (context: seq<string>)
      ensures context == Contexts(vectorDb.documents, vectorDb.chunks, results)
    {
      context := [];
      for i := 0 to |results|
        invariant context == Contexts(vectorDb.documents, vectorDb.chunks, results[..i])
      {
        assert results[..i + 1][..i] == results[..i];
        var r := results[i];
        var chunkInfo := vectorDb.GetChunkById(Text(r.chunkId));
        var docInfo := vectorDb.GetDocumentById(Text(r.docId));
        if chunkInfo.Some? && docInfo.Some? {
          context := context + [chunkInfo.value.text];
        }
      }
      assert results[..|results|] == results;
    }
  }
}
