/**
 * The deterministic part of the query script: checking the session's
 * credentials and identifiers, assembling the context blob from the
 * reranked documents, and collecting the distinct citations printed under
 * the answer. Retrieval, reranking and the chat model are external; their
 * output reaches this module as a sequence of documents.
 */
module Query {
  import opened Wrappers
  import opened Text
  import opened Documents
  import Environment

  const UNKNOWN_SOURCE := "Unknown Source"

  /** The blank line put between chunk texts in the context. */
  const CHUNK_SEPARATOR := "\n\n"

  // ---------------------------------------------------------------------
  // Session setup

  /** The `ValueError`s raised while setting up a session. */
  datatype SetupError =
    | CohereKeyMissing
    | ActiveloopTokenMissing
    | HuggingfaceTokenMissing
    | OrgOrDatasetMissing

  function Message(e: SetupError): string
  {
    match e
    case CohereKeyMissing => "Cohere API Key is missing."
    case ActiveloopTokenMissing => "Activeloop Token is missing."
    case HuggingfaceTokenMissing => "Huggingface token is missing."
    case OrgOrDatasetMissing => "Active Loop Organization ID and Dataset Name are required."
  }

  /** What a successful setup holds on to for the question loop. */
  datatype Session = Session(
    cohereKey: string,
    activeloopToken: string,
    huggingfaceToken: string,
    orgId: string,
    datasetName: string)

  /**
   * The setup checks, in the order the script makes them: each credential
   * must be non-empty, then the org id and the dataset name, read as lines
   * and stripped, must both be non-empty.
   */
  function ValidateSetup(cohereKey: string, activeloopToken: string, huggingfaceToken: string,
                         orgLine: string, datasetLine: string): (r: Result<Session, SetupError>)
    ensures r.Success? <==>
              cohereKey != "" && activeloopToken != "" && huggingfaceToken != ""
              && Strip(orgLine) != "" && Strip(datasetLine) != ""
    ensures r.Success? ==>
              r.value == Session(cohereKey, activeloopToken, huggingfaceToken, Strip(orgLine), Strip(datasetLine))
    ensures r == Failure(CohereKeyMissing) <==> cohereKey == ""
    ensures r == Failure(ActiveloopTokenMissing) <==> cohereKey != "" && activeloopToken == ""
    ensures r == Failure(HuggingfaceTokenMissing) <==>
              cohereKey != "" && activeloopToken != "" && huggingfaceToken == ""
  {
    if cohereKey == "" then Failure(CohereKeyMissing)
    else if activeloopToken == "" then Failure(ActiveloopTokenMissing)
    else if huggingfaceToken == "" then Failure(HuggingfaceTokenMissing)
    else
      var orgId := Strip(orgLine);
      var datasetName := Strip(datasetLine);
      if orgId == "" || datasetName == "" then Failure(OrgOrDatasetMissing)
      else Success(Session(cohereKey, activeloopToken, huggingfaceToken, orgId, datasetName))
  }

  /**
   * The setup block of the main loop: each credential comes from the
   * environment or from what the user types at its prompt, then the checks run.
   */
  function StartSession(env: map<string, string>, typedCohere: string, typedActiveloop: string,
                        typedHuggingface: string, orgLine: string, datasetLine: string): Result<Session, SetupError>
  {
    ValidateSetup(
      Environment.GetEnvKey(env, "COHERE_API_KEY", typedCohere).value,
      Environment.GetEnvKey(env, "ACTIVELOOP_TOKEN", typedActiveloop).value,
      Environment.GetEnvKey(env, "HUGGINGFACEHUB_API_TOKEN", typedHuggingface).value,
      orgLine, datasetLine)
  }

  /**
   * A Cohere key set in the environment is the one the session uses, and
   * anything typed instead has no influence on the outcome.
   */
  lemma EnvironmentCohereKeyWins(env: map<string, string>, typed1: string, typed2: string,
                                 typedActiveloop: string, typedHuggingface: string,
                                 orgLine: string, datasetLine: string)
    requires "COHERE_API_KEY" in env && env["COHERE_API_KEY"] != ""
    ensures StartSession(env, typed1, typedActiveloop, typedHuggingface, orgLine, datasetLine)
         == StartSession(env, typed2, typedActiveloop, typedHuggingface, orgLine, datasetLine)
    ensures StartSession(env, typed1, typedActiveloop, typedHuggingface, orgLine, datasetLine).Success? ==>
              StartSession(env, typed1, typedActiveloop, typedHuggingface, orgLine, datasetLine).value.cohereKey
              == env["COHERE_API_KEY"]
  {
  }

  /** With no usable Cohere key in the environment, an empty typed key ends the setup. */
  lemma EmptyTypedCohereKeyFails(env: map<string, string>, typedActiveloop: string,
                                 typedHuggingface: string, orgLine: string, datasetLine: string)
    requires "COHERE_API_KEY" !in env || env["COHERE_API_KEY"] == ""
    ensures StartSession(env, "", typedActiveloop, typedHuggingface, orgLine, datasetLine)
         == Failure(CohereKeyMissing)
  {
  }

  // ---------------------------------------------------------------------
  // Citations

  /** `doc.metadata.get('source', 'Unknown Source')`. */
  function EffectiveSource(d: Doc): string
  {
    if "source" in d.metadata then d.metadata["source"] else UNKNOWN_SOURCE
  }

  function EffectiveSources(docs: seq<Doc>): seq<string>
  {
    seq(|docs|, i requires 0 <= i < |docs| => EffectiveSource(docs[i]))
  }

  /** The elements of `xs` in order, each kept only where it is seen first. */
  function Dedup(xs: seq<string>): seq<string>
  {
    if xs == [] then []
    else
      var d := Dedup(xs[..|xs| - 1]);
      if xs[|xs| - 1] in d then d else d + [xs[|xs| - 1]]
  }

  /** The citation list `final_formatted_answer` prints for the retrieved documents. */
  function SourceList(docs: seq<Doc>): seq<string>
  {
    Dedup(EffectiveSources(docs))
  }

  /** The position of the first `x` in `xs`, or `|xs|` when `x` does not occur. */
  function IndexOf(xs: seq<string>, x: string): (r: nat)
    ensures r <= |xs|
    ensures r < |xs| ==> xs[r] == x
    ensures forall k :: 0 <= k < r ==> xs[k] != x
  {
    if xs == [] then 0
    else if xs[0] == x then 0
    else 1 + IndexOf(xs[1..], x)
  }

  /** Dedup takes one more element exactly as the script's loop body does. */
  lemma DedupSnoc(xs: seq<string>, x: string)
    ensures Dedup(xs + [x]) == if x in Dedup(xs) then Dedup(xs) else Dedup(xs) + [x]
  {
    assert (xs + [x])[..|xs|] == xs;
  }

  /**
   * The loop in `final_formatted_answer`: go over the documents by index and
   * append each effective source that is not yet in the list.
   */
  method CollectSources(docs: seq<Doc>) returns (sources: seq<string>)
    ensures sources == SourceList(docs)
  {
    sources := [];
    for i := 0 to |docs|
      invariant sources == Dedup(EffectiveSources(docs[..i]))
    {
      var source := EffectiveSource(docs[i]);
      assert EffectiveSources(docs[..i + 1]) == EffectiveSources(docs[..i]) + [source];
      DedupSnoc(EffectiveSources(docs[..i]), source);
      if source !in sources {
        sources := sources + [source];
      }
    }
    assert docs[..|docs|] == docs;
  }

  /** Deduplication keeps exactly the elements it was given. */
  lemma {:induction false} DedupMembers(xs: seq<string>)
    ensures forall x :: x in Dedup(xs) <==> x in xs
  {
    if xs != [] {
      var init := xs[..|xs| - 1];
      DedupMembers(init);
      assert xs == init + [xs[|xs| - 1]];
    }
  }

  /** No element occurs twice after deduplication. */
  lemma {:induction false} DedupNoDuplicates(xs: seq<string>)
    ensures forall i, j :: 0 <= i < j < |Dedup(xs)| ==> Dedup(xs)[i] != Dedup(xs)[j]
  {
    if xs != [] {
      DedupNoDuplicates(xs[..|xs| - 1]);
    }
  }

  /** Deduplication never lengthens its input. */
  lemma {:induction false} DedupLength(xs: seq<string>)
    ensures |Dedup(xs)| <= |xs|
  {
    if xs != [] {
      DedupLength(xs[..|xs| - 1]);
    }
  }

  /** Appending never moves the first occurrence of an element already present. */
  lemma {:induction false} IndexOfSnoc(xs: seq<string>, y: string, x: string)
    requires x in xs
    ensures IndexOf(xs + [y], x) == IndexOf(xs, x)
  {
    if xs[0] != x {
      assert x in xs[1..];
      assert (xs + [y])[1..] == xs[1..] + [y];
      IndexOfSnoc(xs[1..], y, x);
    }
  }

  /**
   * Deduplication lists elements in the order of their first occurrences:
   * an element never comes before one whose first occurrence is earlier.
   */
  lemma {:induction false} DedupFirstSeenOrder(xs: seq<string>)
    ensures forall i, j :: 0 <= i < j < |Dedup(xs)| ==> IndexOf(xs, Dedup(xs)[i]) < IndexOf(xs, Dedup(xs)[j])
  {
    if xs != [] {
      var init := xs[..|xs| - 1];
      var last := xs[|xs| - 1];
      var d := Dedup(init);
      assert xs == init + [last];
      DedupFirstSeenOrder(init);
      DedupMembers(init);
      forall y | y in d
        ensures IndexOf(xs, y) == IndexOf(init, y) < |init|
      {
        IndexOfSnoc(init, last, y);
      }
      if last !in d {
        assert IndexOf(xs, last) == |init|;
      }
    }
  }

  /**
   * The printed citations: every document's effective source is listed,
   * each listed source comes from some document, none is listed twice, they
   * appear in the order first seen, and there are at most as many as documents.
   */
  lemma SourceListSpec(docs: seq<Doc>)
    ensures forall k :: 0 <= k < |docs| ==> EffectiveSource(docs[k]) in SourceList(docs)
    ensures forall s :: s in SourceList(docs) ==> exists k :: 0 <= k < |docs| && EffectiveSource(docs[k]) == s
    ensures forall i, j :: 0 <= i < j < |SourceList(docs)| ==> SourceList(docs)[i] != SourceList(docs)[j]
    ensures forall i, j :: 0 <= i < j < |SourceList(docs)| ==>
              IndexOf(EffectiveSources(docs), SourceList(docs)[i]) < IndexOf(EffectiveSources(docs), SourceList(docs)[j])
    ensures |SourceList(docs)| <= |docs|
  {
    var xs := EffectiveSources(docs);
    DedupMembers(xs);
    DedupNoDuplicates(xs);
    DedupFirstSeenOrder(xs);
    DedupLength(xs);
    forall k | 0 <= k < |docs|
      ensures EffectiveSource(docs[k]) in SourceList(docs)
    {
      assert xs[k] == EffectiveSource(docs[k]);
    }
    forall s | s in SourceList(docs)
      ensures exists k :: 0 <= k < |docs| && EffectiveSource(docs[k]) == s
    {
      var k :| 0 <= k < |xs| && xs[k] == s;
    }
  }

  /** No retrieved documents give an empty citation list. */
  lemma NoDocsNoSources()
    ensures SourceList([]) == []
  {
  }

  /** Retrieved sources A, B, A, C are cited as A, B, C. */
  lemma SourceListExample(a: Doc, b: Doc, c: Doc)
    requires a.metadata == map["source" := "A"]
    requires b.metadata == map["source" := "B"]
    requires c.metadata == map["source" := "C"]
    ensures SourceList([a, b, a, c]) == ["A", "B", "C"]
  {
    assert EffectiveSources([a, b, a, c]) == ["A", "B", "A", "C"];
    DedupExample();
  }

  lemma DedupExample()
    ensures Dedup(["A", "B", "A", "C"]) == ["A", "B", "C"]
  {
    DedupSnoc([], "A");
    assert [] + ["A"] == ["A"];
    assert Dedup(["A"]) == ["A"];
    DedupSnoc(["A"], "B");
    assert ["A"] + ["B"] == ["A", "B"];
    assert Dedup(["A", "B"]) == ["A", "B"];
    DedupSnoc(["A", "B"], "A");
    assert ["A", "B"] + ["A"] == ["A", "B", "A"];
    assert Dedup(["A", "B", "A"]) == ["A", "B"];
    DedupSnoc(["A", "B", "A"], "C");
    assert ["A", "B", "A"] + ["C"] == ["A", "B", "A", "C"];
  }

  /** A document without a `source` entry is cited as "Unknown Source". */
  lemma MissingSourceIsUnknown(d: Doc)
    requires "source" !in d.metadata
    ensures SourceList([d]) == [UNKNOWN_SOURCE]
  {
    assert EffectiveSources([d]) == [] + [UNKNOWN_SOURCE];
    DedupSnoc([], UNKNOWN_SOURCE);
  }

  // ---------------------------------------------------------------------
  // Context

  /** `[doc.page_content for doc in compressed_docs]`. */
  function ChunkTexts(docs: seq<Doc>): seq<string>
  {
    seq(|docs|, i requires 0 <= i < |docs| => docs[i].pageContent)
  }

  /** The context blob: the chunk texts joined by a blank line, then stripped. */
  function Context(docs: seq<Doc>): string
  {
    Strip(Join(CHUNK_SEPARATOR, ChunkTexts(docs)))
  }

  /** No documents give an empty context. */
  lemma ContextOfNoDocs()
    ensures Context([]) == ""
  {
  }

  /** The context never begins or ends with whitespace. */
  lemma ContextIsTrimmed(docs: seq<Doc>)
    ensures Context(docs) == "" || (!IsSpace(Context(docs)[0]) && !IsSpace(Context(docs)[|Context(docs)| - 1]))
  {
  }

  /** Whether the first chunk starts and the last chunk ends with something other than whitespace. */
  predicate TrimmedEnds(docs: seq<Doc>)
  {
    && |docs| > 0
    && docs[0].pageContent != "" && !IsSpace(docs[0].pageContent[0])
    && docs[|docs| - 1].pageContent != ""
    && !IsSpace(docs[|docs| - 1].pageContent[|docs[|docs| - 1].pageContent| - 1])
  }

  /** With trimmed outer ends, stripping removes nothing from the joined chunk texts. */
  lemma ContextIsJoin(docs: seq<Doc>)
    requires TrimmedEnds(docs)
    ensures Context(docs) == Join(CHUNK_SEPARATOR, ChunkTexts(docs))
  {
    var xs := ChunkTexts(docs);
    assert xs[0] == docs[0].pageContent && xs[|xs| - 1] == docs[|docs| - 1].pageContent;
    JoinTrimmedEnds(CHUNK_SEPARATOR, xs);
  }

  /**
   * With trimmed outer ends, every chunk text sits in the context whole, at
   * its offset, in retrieval order.
   */
  lemma ContextKeepsWholeChunks(docs: seq<Doc>)
    requires TrimmedEnds(docs)
    ensures forall k :: 0 <= k < |docs| ==>
              JoinOffset(CHUNK_SEPARATOR, ChunkTexts(docs), k) + |docs[k].pageContent| <= |Context(docs)|
              && Context(docs)[JoinOffset(CHUNK_SEPARATOR, ChunkTexts(docs), k)..
                               JoinOffset(CHUNK_SEPARATOR, ChunkTexts(docs), k) + |docs[k].pageContent|]
                 == docs[k].pageContent
  {
    var xs := ChunkTexts(docs);
    ContextIsJoin(docs);
    forall k | 0 <= k < |docs|
      ensures JoinOffset(CHUNK_SEPARATOR, xs, k) + |docs[k].pageContent| <= |Context(docs)|
      ensures Context(docs)[JoinOffset(CHUNK_SEPARATOR, xs, k)..JoinOffset(CHUNK_SEPARATOR, xs, k) + |docs[k].pageContent|]
              == docs[k].pageContent
    {
      JoinPieceAt(CHUNK_SEPARATOR, xs, k);
    }
  }

  /**
   * With trimmed outer ends, each chunk text but the last is followed in the
   * context by a blank line, and then by the next chunk text.
   */
  lemma ContextSeparatesChunks(docs: seq<Doc>, k: nat)
    requires TrimmedEnds(docs) && k + 1 < |docs|
    ensures JoinOffset(CHUNK_SEPARATOR, ChunkTexts(docs), k + 1)
            == JoinOffset(CHUNK_SEPARATOR, ChunkTexts(docs), k) + |docs[k].pageContent| + 2
    ensures JoinOffset(CHUNK_SEPARATOR, ChunkTexts(docs), k + 1) <= |Context(docs)|
    ensures Context(docs)[JoinOffset(CHUNK_SEPARATOR, ChunkTexts(docs), k + 1) - 2..
                          JoinOffset(CHUNK_SEPARATOR, ChunkTexts(docs), k + 1)] == CHUNK_SEPARATOR
  {
    var xs := ChunkTexts(docs);
    assert |CHUNK_SEPARATOR| == 2 && xs[k] == docs[k].pageContent;
    ContextIsJoin(docs);
    JoinOffsetNext(CHUNK_SEPARATOR, xs, k);
    JoinSeparatorAt(CHUNK_SEPARATOR, xs, k);
  }

  /** The inputs `final_formatted_answer` fills into the prompt template. */
  datatype PromptInput = PromptInput(text: string, question: string)

  function ResearcherInput(question: string, finalAnswer: string): PromptInput
  {
    PromptInput(Strip(finalAnswer), Strip(question))
  }

  /**
   * The text handed to the prompt is the context itself: stripping it again
   * in `final_formatted_answer` changes nothing.
   */
  lemma ResearcherInputKeepsContext(question: string, docs: seq<Doc>)
    ensures ResearcherInput(question, Context(docs)).text == Context(docs)
  {
    StripIdempotent(Join(CHUNK_SEPARATOR, ChunkTexts(docs)));
  }
}
