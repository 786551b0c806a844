/**
 The knowledge base as an object (backend/retriever.py `KnowledgeBase`): the
 chunk list, the vector rows and the keyword index, with their files. Every
 mutation replaces the chunks, saves them and rebuilds both indexes; it can be
 interrupted between any two of these.
 */
module KnowledgeBases {
  import Text
  import opened Tokenizer
  import opened Ranking
  import opened Sequences
  import opened Bm25
  import opened KeywordIndex
  import opened DocumentIndex
  import opened Fusion
  import opened Neighbours
  import opened Retrieval
  import opened VectorIndex
  import Reranking
  import opened HybridSearch
  import opened SearchMeaning

  function Contents(chunks: seq<Chunk>): (r: seq<string>)
    ensures |r| == |chunks| && forall i :: 0 <= i < |r| ==> r[i] == chunks[i].body.passage.content
  {
    seq(|chunks|, i requires 0 <= i < |chunks| => chunks[i].body.passage.content)
  }

  /** chunks.json: absent, left half-written, or complete. */
  datatype ChunkFile = NoChunkFile | TornChunkFile | SavedChunks(chunks: seq<Chunk>)

  /** faiss.index: absent, unreadable, or rows of some dimension. */
  datatype IndexFile = NoIndexFile | UnreadableIndexFile | SavedRows(dimension: nat, rows: seq<Vector>)

  /** Where a mutation stops: nowhere, before it changes anything, or in one of its later steps. */
  datatype Fault = NoFault | FailsFirst | SaveFails | EmbedFails | IndexWriteFails

  /** `_chunk_from_dict` fills in an empty parent. */
  function Restored(c: Chunk): Chunk {
    Chunk(c.id, if c.parentId == "" then c.id else c.parentId,
          c.body.(passage := c.body.passage.(parentContent :=
            if c.body.passage.parentContent == "" then c.body.passage.content else c.body.passage.parentContent)))
  }

  function RestoredAll(chunks: seq<Chunk>): (r: seq<Chunk>)
    ensures |r| == |chunks| && forall i :: 0 <= i < |r| ==> r[i] == Restored(chunks[i])
  {
    seq(|chunks|, i requires 0 <= i < |chunks| => Restored(chunks[i]))
  }

  /** A restart changes nothing that a search shows: text, source and page stay, and so do the parents. */
  lemma RestoredShowsTheSame(c: Chunk, d: Chunk, r: SearchResult)
    ensures Shows(r, Restored(c)) <==> Shows(r, c)
    ensures SameParent(Restored(c), Restored(d)) <==> SameParent(c, d)
    ensures Restored(c).id == c.id && Restored(c).body.passage.content == c.body.passage.content
    ensures Restored(Restored(c)) == Restored(c)
  {
  }

  /** The chunks that a restart reads back. */
  function LoadedChunks(file: ChunkFile): seq<Chunk> {
    if file.SavedChunks? then RestoredAll(file.chunks) else []
  }

  /** A saved index is read back only if it has the right dimension and as many rows as there are chunks. */
  predicate Fits(file: IndexFile, chunkCount: nat, dimension: nat) {
    chunkCount > 0 && file.SavedRows? && file.dimension == dimension && |file.rows| == chunkCount
  }

  /**
   The one kind of saved index that a restart takes over although it is wrong:
   as many rows as chunks, of the right dimension, but not their embeddings.
   */
  predicate TakesOverStaleRows(chunkFile: ChunkFile, indexFile: IndexFile, dimension: nat, embed: Embedder) {
    && Fits(indexFile, |LoadedChunks(chunkFile)|, dimension)
    && indexFile.rows != EmbedAll(Contents(LoadedChunks(chunkFile)), embed)
  }

  /** As many chunks as when the rows were computed, some with a text of another embedding. */
  ghost predicate Stale(indexed: seq<Chunk>, chunks: seq<Chunk>, embed: Embedder) {
    && |indexed| == |chunks|
    && exists i :: 0 <= i < |chunks| && embed(Contents(indexed)[i]) != embed(Contents(chunks)[i])
  }

  /**
   So whether a restart takes over stale rows is decided by the chunks of two
   mutations: the one that last wrote the rows, and the one that last saved its chunks.
   */
  lemma StaleExactly(chunkFile: ChunkFile, indexFile: IndexFile, indexed: seq<Chunk>, dimension: nat, embed: Embedder)
    requires indexFile == SavedRows(dimension, EmbedAll(Contents(indexed), embed))
    ensures TakesOverStaleRows(chunkFile, indexFile, dimension, embed)
            <==> Stale(indexed, LoadedChunks(chunkFile), embed)
  {
    var loaded := LoadedChunks(chunkFile);
    var rows, now := EmbedAll(Contents(indexed), embed), EmbedAll(Contents(loaded), embed);
    if |indexed| == |loaded| && rows != now {
      var i :| 0 <= i < |rows| && rows[i] != now[i];
      assert embed(Contents(indexed)[i]) != embed(Contents(loaded)[i]);
    }
  }

  /** The chunks whose source is not the given one, in order. */
  function Excluding(chunks: seq<Chunk>, source: string): seq<Chunk> {
    if chunks == [] then []
    else if chunks[0].body.source == source then Excluding(chunks[1..], source)
    else [chunks[0]] + Excluding(chunks[1..], source)
  }

  predicate NoneFrom(chunks: seq<Chunk>, source: string) {
    forall i :: 0 <= i < |chunks| ==> chunks[i].body.source != source
  }

  lemma {:induction false} ExcludingExcludes(chunks: seq<Chunk>, source: string)
    ensures NoneFrom(Excluding(chunks, source), source)
  {
    if chunks != [] {
      ExcludingExcludes(chunks[1..], source);
    }
  }

  lemma {:induction false} ExcludingBodies(chunks: seq<Chunk>, source: string)
    ensures Bodies(Excluding(chunks, source)) == Without(Bodies(chunks), {source})
  {
    if chunks != [] {
      ExcludingBodies(chunks[1..], source);
      assert Bodies(chunks)[1..] == Bodies(chunks[1..]);
      var rest := Excluding(chunks[1..], source);
      assert Bodies([chunks[0]] + rest) == [chunks[0].body] + Bodies(rest);
    }
  }

  class KnowledgeBase {
    const embed: Embedder
    const dimension: nat
    const low: Lowering
    const ln: Log
    const bm25: BM25Index
    var chunks: seq<Chunk>
    var index: seq<Vector>
    var chunkFile: ChunkFile
    var indexFile: IndexFile
    /** The documents the keyword index was last built from. */
    ghost var counted: seq<Doc>
    /** The chunks that the saved vector rows were computed from. */
    ghost var indexed: seq<Chunk>

    ghost predicate Valid()
      reads this, bm25
    {
      bm25.Built(counted, ln)
    }

    /** Row i is the embedding of chunk i, and keyword entry i counts its terms. */
    ghost predicate Aligned()
      reads this, bm25
    {
      && Valid()
      && index == EmbedAll(Contents(chunks), embed)
      && counted == TokenizeAll(Contents(chunks), low)
    }

    /** The saved rows are those of the last mutation that wrote them. */
    ghost predicate Traceable()
      reads this
    {
      indexFile.SavedRows? ==> indexFile == SavedRows(dimension, EmbedAll(Contents(indexed), embed))
    }

    constructor (embed: Embedder, dimension: nat, low: Lowering, ln: Log, enabled: bool, params: Params)
      ensures Aligned() && Traceable() && chunks == [] && fresh(bm25)
      ensures chunkFile == NoChunkFile && indexFile == NoIndexFile
      ensures this.embed == embed && this.dimension == dimension && this.low == low && this.ln == ln
      ensures bm25.enabled == enabled && bm25.params == params
    {
      this.embed, this.dimension, this.low, this.ln := embed, dimension, low, ln;
      bm25 := new BM25Index(enabled, params, ln);
      chunks, index, chunkFile, indexFile, counted, indexed := [], [], NoChunkFile, NoIndexFile, [], [];
    }

    /** `_rebuild_index`: rows, index file, keyword index; the caller assigns the rows. */
    method RebuildIndex(fault: Fault) returns (ok: bool, rows: seq<Vector>)
      requires Valid()
      modifies this`indexFile, this`counted, this`indexed, bm25
      ensures Valid()
      ensures ok ==> && rows == EmbedAll(Contents(chunks), embed)
                     && counted == TokenizeAll(Contents(chunks), low)
                     && indexFile == SavedRows(dimension, rows)
      ensures !ok ==> && counted == old(counted)
                      && indexFile == if fault == EmbedFails then old(indexFile) else UnreadableIndexFile
      ensures ok <==> fault != IndexWriteFails && (fault != EmbedFails || chunks == [])
      ensures indexed == if ok then chunks else old(indexed)
      ensures old(Traceable()) ==> Traceable()
    {
      rows := [];
      if |chunks| > 0 {
        if fault == EmbedFails {
          return false, [];
        }
        rows := EmbedAll(Contents(chunks), embed);
      }
      if fault == IndexWriteFails {
        indexFile := UnreadableIndexFile;
        return false, [];
      }
      indexFile := SavedRows(dimension, rows);
      indexed := chunks;
      bm25.Rebuild(Contents(chunks), low, ln);
      counted := TokenizeAll(Contents(chunks), low);
      ok := true;
    }

    /** The tail that all mutations share: save the chunks, rebuild, assign the rows. */
    method SaveAndRebuild(fault: Fault) returns (ok: bool)
      requires Valid()
      modifies this`index, this`chunkFile, this`indexFile, this`counted, this`indexed, bm25
      ensures old(Traceable()) ==> Traceable()
      ensures Valid() && chunks == old(chunks)
      ensures ok ==> Aligned() && chunkFile == SavedChunks(chunks) && indexFile == SavedRows(dimension, index)
      ensures fault == NoFault ==> ok
      ensures fault == EmbedFails && chunks != [] ==>
                !ok && index == old(index) && chunkFile == SavedChunks(chunks) && indexFile == old(indexFile)
    {
      if fault == SaveFails {
        chunkFile := TornChunkFile;
        return false;
      }
      chunkFile := SavedChunks(chunks);
      var rows;
      ok, rows := RebuildIndex(fault);
      if ok {
        index := rows;
      }
    }

    /** `add_pdf`: appends, so a repeated call duplicates. */
    method AddPdf(parsed: seq<Chunk>, fault: Fault) returns (ok: bool)
      requires Valid()
      modifies this, bm25
      ensures old(Traceable()) ==> Traceable()
      ensures Valid()
      ensures fault == FailsFirst ==> !ok && chunks == old(chunks)
      ensures fault != FailsFirst ==> chunks == old(chunks) + parsed
      ensures ok ==> Aligned()
    {
      if fault == FailsFirst {
        return false;
      }
      chunks := chunks + parsed;
      ok := SaveAndRebuild(fault);
    }

    /** `upsert_pdf`: replaces the chunks of a source. */
    method UpsertPdf(parsed: seq<Chunk>, source: string, fault: Fault) returns (ok: bool)
      requires Valid()
      modifies this, bm25
      ensures old(Traceable()) ==> Traceable()
      ensures Valid()
      ensures fault == FailsFirst ==> !ok && chunks == old(chunks)
      ensures fault != FailsFirst ==> Bodies(chunks) == Without(Bodies(old(chunks)), {source}) + Bodies(parsed)
      ensures fault != FailsFirst ==> chunks == Excluding(old(chunks), source) + parsed
      ensures fault == NoFault ==> ok
      ensures fault == EmbedFails && chunks != [] ==>
                !ok && chunkFile == SavedChunks(chunks) && indexFile == old(indexFile)
      ensures ok ==> Aligned()
    {
      if fault == FailsFirst {
        return false;
      }
      ExcludingBodies(chunks, source);
      assert Bodies(Excluding(chunks, source) + parsed) == Bodies(Excluding(chunks, source)) + Bodies(parsed);
      chunks := Excluding(chunks, source);
      chunks := chunks + parsed;
      ok := SaveAndRebuild(fault);
    }

    /** `delete_source`: strips the name; a blank one is accepted and does nothing. */
    method DeleteSource(sourceName: string, fault: Fault) returns (ok: bool, removed: nat)
      requires Valid()
      modifies this, bm25
      ensures old(Traceable()) ==> Traceable()
      ensures Valid()
      ensures var source := Text.Strip(sourceName, Text.PySpace);
              && (source == "" ==> ok && chunks == old(chunks) && removed == 0)
              && (source != "" && fault == FailsFirst ==> !ok && chunks == old(chunks))
              && (source != "" && fault != FailsFirst ==> Bodies(chunks) == Without(Bodies(old(chunks)), {source}))
              && (fault == NoFault ==> ok)
              && (ok ==> removed == |old(chunks)| - |chunks|)
              && (ok && source != "" ==> Aligned())
    {
      var source := Text.Strip(sourceName, Text.PySpace);
      if source == "" {
        return true, 0;
      }
      if fault == FailsFirst {
        return false, 0;
      }
      var before := |chunks|;
      ExcludingBodies(chunks, source);
      ExcludingShortens(chunks, source);
      chunks := Excluding(chunks, source);
      removed := before - |chunks|;
      ok := SaveAndRebuild(fault);
    }

    /** `rebuild_from_uploads`. */
    method RebuildFromUploads(all: seq<Chunk>, fault: Fault) returns (ok: bool)
      requires Valid()
      modifies this, bm25
      ensures old(Traceable()) ==> Traceable()
      ensures Valid()
      ensures fault == FailsFirst ==> !ok && chunks == old(chunks)
      ensures fault != FailsFirst ==> chunks == all
      ensures ok ==> Aligned()
    {
      if fault == FailsFirst {
        return false;
      }
      chunks := all;
      ok := SaveAndRebuild(fault);
    }

    /** `clear`. */
    method Clear(fault: Fault) returns (ok: bool)
      requires Valid()
      modifies this, bm25
      ensures old(Traceable()) ==> Traceable()
      ensures Valid() && chunks == []
      ensures ok ==> Aligned()
    {
      chunks := [];
      ok := SaveAndRebuild(fault);
    }

    /**
     Restarting the process: `__init__`, `_load_chunks`, `_load_or_rebuild_index`.
     It restores alignment in every case but one, and that case is exact.
     */
    method Restart(fault: Fault) returns (ok: bool)
      requires Valid()
      modifies this, bm25
      ensures old(Traceable()) ==> Traceable()
      ensures Valid()
      ensures chunkFile == old(chunkFile)
      ensures old(chunkFile).TornChunkFile? ==> !ok
      ensures fault == NoFault && !old(chunkFile).TornChunkFile? ==> ok
      ensures ok ==> chunks == LoadedChunks(chunkFile)
      ensures ok ==> (Aligned() <==> !TakesOverStaleRows(old(chunkFile), old(indexFile), dimension, embed))
      ensures ok && old(Traceable() && indexFile.SavedRows?) ==> (Aligned() <==> !Stale(old(indexed), chunks, embed))
    {
      hide Stale, BM25Index.Built, Tokens;
      if Traceable() && indexFile.SavedRows? {
        StaleExactly(chunkFile, indexFile, indexed, dimension, embed);
      }
      ok := LoadChunks();
      if ok {
        var rows;
        ok, rows := LoadOrRebuildIndex(fault);
        if ok {
          index := rows;
        }
      }
    }

    /** `_load_chunks`, and the keyword index built from them. */
    method LoadChunks() returns (ok: bool)
      requires Valid()
      modifies this`chunks, this`counted, bm25
      ensures Valid()
      ensures ok <==> !chunkFile.TornChunkFile?
      ensures ok ==> chunks == LoadedChunks(chunkFile) && counted == TokenizeAll(Contents(chunks), low)
    {
      if chunkFile.TornChunkFile? {
        return false;
      }
      chunks := LoadedChunks(chunkFile);
      bm25.Rebuild(Contents(chunks), low, ln);
      counted := TokenizeAll(Contents(chunks), low);
      return true;
    }

    /** `_load_or_rebuild_index`: the caller assigns the rows. */
    method LoadOrRebuildIndex(fault: Fault) returns (ok: bool, rows: seq<Vector>)
      requires Valid() && counted == TokenizeAll(Contents(chunks), low)
      modifies this`indexFile, this`counted, this`indexed, bm25
      ensures old(Traceable()) ==> Traceable()
      ensures Valid() && counted == TokenizeAll(Contents(chunks), low)
      ensures Fits(old(indexFile), |chunks|, dimension) ==> ok && rows == old(indexFile).rows
      ensures ok && !Fits(old(indexFile), |chunks|, dimension) ==> rows == EmbedAll(Contents(chunks), embed)
      ensures fault == NoFault ==> ok
    {
      if Fits(indexFile, |chunks|, dimension) {
        return true, indexFile.rows;
      }
      ok, rows := RebuildIndex(fault);
    }

    /** What `search` asks of the two indexes; the numbers of candidates come from the environment. */
    function Asked(query: string, vectorCandidates: nat, keywordCandidates: int, minScore: real): Ask
      reads this
    {
      Ask(embed(query), Tokens(query, low),
          Min(vectorCandidates, |chunks|),
          if keywordCandidates < |chunks| then keywordCandidates else |chunks|,
          minScore, bm25.params, bm25.enabled)
    }

    /**
     On an aligned store every vector hit is a chunk with the inner product of its
     own text, and every chunk's keyword score is that of its own text.
     */
    lemma AlignedHits(nearest: seq<Hit>, a: Ask)
      requires Aligned() && Answers(nearest, index, a.vector, a.vectorK)
      ensures forall p :: 0 <= p < |Passing(nearest, a.minScore)| ==>
                var h := Passing(nearest, a.minScore)[p];
                InRange(h, chunks) && h.1 == Dot(a.vector, embed(chunks[h.0].body.passage.content))
      ensures |counted| == |chunks|
      ensures forall i :: 0 <= i < |chunks| ==> counted[i] == Tokens(chunks[i].body.passage.content, low)
    {
      VectorHitsExactly(nearest, index, a.vector, a.vectorK, a.minScore);
      forall p | 0 <= p < |Passing(nearest, a.minScore)|
        ensures var h := Passing(nearest, a.minScore)[p];
                InRange(h, chunks) && h.1 == Dot(a.vector, embed(chunks[h.0].body.passage.content))
      {
        assert Names(Passing(nearest, a.minScore)[p], index, a.vector);
      }
    }

    /**
     `search`: `nearest` is what the flat vector index answers for the query, and
     `responses` what the reranking models answer.
     */
    method Search(query: string, topK: nat, minScore: real, vectorCandidates: nat, keywordCandidates: int,
                  nearest: seq<Hit>, w: Weights, overview: bool, reranks: bool, responses: seq<Reranking.Response>)
      returns (results: seq<SearchResult>)
      requires Valid() && topK >= 1 && Sensible(bm25.params)
      requires chunks != [] && index != [] ==>
                 var a := Asked(query, vectorCandidates, keywordCandidates, minScore);
                 Answers(nearest, index, a.vector, a.vectorK)
      ensures chunks == [] || index == [] ==> results == []
      ensures chunks != [] && index != [] ==>
                var a := Asked(query, vectorCandidates, keywordCandidates, minScore);
                var vectorHits, keywordHits := Passing(nearest, minScore), KeywordHits(counted, a, ln);
                && DistinctKeys(vectorHits) && DistinctKeys(keywordHits)
                && (Aligned() ==> forall p :: 0 <= p < |vectorHits| ==>
                      && InRange(vectorHits[p], chunks)
                      && vectorHits[p].1 == Dot(a.vector, embed(chunks[vectorHits[p].0].body.passage.content)))
                && results == Reranking.Reranked(
                     reranks, responses, Found(chunks, vectorHits, keywordHits, w, overview, topK, low), topK)
                && (!overview && !reranks ==> Presents(results, Fuse(vectorHits, keywordHits, w), chunks, topK))
    {
      if |chunks| == 0 || |index| == 0 {
        return [];
      }
      hide Found, Passing, Answers, Bm25.Results;
      ghost var a := Asked(query, vectorCandidates, keywordCandidates, minScore);
      ListsAreDistinct(nearest, index, counted, a, ln);
      if Aligned() {
        AlignedHits(nearest, a);
      }
      var k := if keywordCandidates < |chunks| then keywordCandidates else |chunks|;
      var keywordHits := bm25.Search(query, k, low, counted, ln);
      var found := FuseAndGroup(chunks, nearest, minScore, keywordHits, w, overview, topK, low);
      results := Reranking.Rerank(reranks, responses, found, topK);
      if !overview && !reranks {
        SearchMeans(chunks, Passing(nearest, minScore), keywordHits, w, topK, low);
        hide Presents;
        assert Presents(found, Fuse(Passing(nearest, minScore), keywordHits, w), chunks, topK);
        assert results == found;
      }
    }
  }

  lemma {:induction false} ExcludingShortens(chunks: seq<Chunk>, source: string)
    ensures |Excluding(chunks, source)| <= |chunks|
  {
    if chunks != [] {
      ExcludingShortens(chunks[1..], source);
    }
  }

  /**
   The exact gap at work: an upsert whose embedding call fails, replacing a
   source by as many chunks as it had, survives a restart with stale rows.
   */
  method InterruptedUpsertStaysMisaligned(kb: KnowledgeBase, parsed: seq<Chunk>, source: string)
    requires kb.Aligned() && parsed != []
    requires kb.indexFile == SavedRows(kb.dimension, kb.index)
    requires |Excluding(kb.chunks, source)| + |parsed| == |kb.chunks|
    requires EmbedAll(Contents(RestoredAll(Excluding(kb.chunks, source) + parsed)), kb.embed) != kb.index
    modifies kb, kb.bm25
    ensures !kb.Aligned()
  {
    var replaced := Excluding(kb.chunks, source) + parsed;
    var rows := kb.index;
    var ok := kb.UpsertPdf(parsed, source, EmbedFails);
    assert kb.chunks == replaced && LoadedChunks(kb.chunkFile) == RestoredAll(replaced);
    assert kb.indexFile == SavedRows(kb.dimension, rows) && |rows| == |RestoredAll(replaced)|;
    assert TakesOverStaleRows(kb.chunkFile, kb.indexFile, kb.dimension, kb.embed);
    ok := kb.Restart(NoFault);
  }
}
