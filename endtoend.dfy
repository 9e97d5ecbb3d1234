/**
 * What the two scripts promise together: the citations the ingestion script
 * stores are the ones the query script prints, so answers drawn from
 * ingested chunks are always attributed to a file title and a page.
 */
module EndToEnd {
  import opened Wrappers
  import opened Documents
  import opened Paths
  import opened Text
  import Hub
  import Ingestion
  import Query

  /**
   * Whether the `source` entry of `d`'s metadata is the `source` entry of
   * one of the metadata maps the ingestion script stored for `docs`. Other
   * entries (a page number, a relevance score) may be present and are ignored.
   */
  predicate CarriesStoredSource(docs: seq<Doc>, d: Doc)
  {
    && Ingestion.IndexDocs(docs).Success?
    && "source" in d.metadata
    && exists i :: 0 <= i < |Ingestion.IndexDocs(docs).value.metadatas|
                   && "source" in Ingestion.IndexDocs(docs).value.metadatas[i]
                   && Ingestion.IndexDocs(docs).value.metadatas[i]["source"] == d.metadata["source"]
  }

  /**
   * A retrieved chunk whose `source` entry is one the ingestion script
   * stored is cited by that stored citation: every printed source is the
   * citation of some ingested chunk, and none is "Unknown Source".
   */
  lemma StoredChunksAreAttributed(docs: seq<Doc>, retrieved: seq<Doc>)
    requires Ingestion.IndexDocs(docs).Success?
    requires forall k :: 0 <= k < |retrieved| ==> CarriesStoredSource(docs, retrieved[k])
    ensures forall i :: 0 <= i < |docs| ==> Ingestion.MissingKey(docs[i]).None?
    ensures forall s :: s in Query.SourceList(retrieved) ==>
              exists i :: 0 <= i < |docs| && s == Ingestion.Citation(docs[i])
    ensures Query.UNKNOWN_SOURCE !in Query.SourceList(retrieved)
  {
    Ingestion.IndexDocsSucceeds(docs);
    var sources := Query.EffectiveSources(retrieved);
    Query.DedupMembers(sources);
    forall s | s in Query.SourceList(retrieved)
      ensures s != Query.UNKNOWN_SOURCE
      ensures exists i :: 0 <= i < |docs| && s == Ingestion.Citation(docs[i])
    {
      var k :| 0 <= k < |sources| && sources[k] == s;
      var i := StoredSource(docs, retrieved[k]);
      CitationIsNotUnknown(docs[i]);
    }
  }

  /** A chunk carrying a stored `source` entry is cited by the citation of the chunk it was stored for. */
  lemma StoredSource(docs: seq<Doc>, d: Doc) returns (i: nat)
    requires CarriesStoredSource(docs, d)
    ensures i < |docs| && Ingestion.MissingKey(docs[i]).None?
    ensures Query.EffectiveSource(d) == Ingestion.Citation(docs[i])
  {
    var stored := Ingestion.IndexDocs(docs).value.metadatas;
    Ingestion.IndexDocsAligned(docs);
    i :| 0 <= i < |stored| && "source" in stored[i] && stored[i]["source"] == d.metadata["source"];
    assert stored[i] == map["source" := Ingestion.Citation(docs[i])];
  }

  /** A stored citation starts with "Title: ", so it is never "Unknown Source". */
  lemma CitationIsNotUnknown(d: Doc)
    requires Ingestion.MissingKey(d).None?
    ensures Ingestion.Citation(d) != Query.UNKNOWN_SOURCE
  {
    Ingestion.CitationTitleIsBaseName(d);
    assert Query.UNKNOWN_SOURCE[..7] == "Unknown";
  }

  /** Of a directory listing only `paper1.pdf`, that one file is loaded. */
  lemma SinglePaperSelected(root: string, dirs: seq<string>)
    ensures Ingestion.PdfPaths([Ingestion.WalkEntry(root, dirs, ["paper1.pdf"])]) == [JoinPath(root, "paper1.pdf")]
  {
    var walk := [Ingestion.WalkEntry(root, dirs, ["paper1.pdf"])];
    Ingestion.PdfNameExamples();
    assert ["paper1.pdf"][..0] == [];
    assert Ingestion.PdfsIn(root, ["paper1.pdf"]) == [JoinPath(root, "paper1.pdf")];
    assert walk[..0] == [];
  }

  /** The name `paper1.pdf` holds no path separator. */
  lemma PaperNameHasNoSep()
    ensures forall i :: 0 <= i < |"paper1.pdf"| ==> !IsSep("paper1.pdf"[i])
  {
    var n := "paper1.pdf";
    assert n == ['p', 'a', 'p', 'e', 'r', '1', '.', 'p', 'd', 'f'];
  }

  /** The file title of `paper1.pdf`, in whatever directory, is `paper1`. */
  lemma PaperStem(root: string)
    ensures Stem(JoinPath(root, "paper1.pdf")) == "paper1"
  {
    var n := "paper1.pdf";
    assert n == ['p', 'a', 'p', 'e', 'r', '1', '.', 'p', 'd', 'f'];
    PaperNameHasNoSep();
    BasenameOfJoin(root, n);
    Ingestion.StemOfName(n, 6);
    assert n[..6] == "paper1";
  }

  /** The citation of a chunk of `paper1.pdf`, page "1". */
  lemma SinglePaperCitation(root: string, chunk: Doc)
    requires "source" in chunk.metadata && chunk.metadata["source"] == JoinPath(root, "paper1.pdf")
    requires "page_label" in chunk.metadata && chunk.metadata["page_label"] == "1"
    ensures Ingestion.MissingKey(chunk).None?
    ensures Ingestion.Citation(chunk) == "Title: paper1, Page: 1"
  {
    PaperStem(root);
    assert Ingestion.Citation(chunk) == "Title: " + "paper1" + ", Page: " + "1";
  }

  /**
   * A directory holding the single one-page file `paper1.pdf`, page label
   * "1", which the splitter keeps as one chunk, is stored as that chunk's
   * text with the citation "Title: paper1, Page: 1".
   */
  lemma SinglePaperIngested(root: string, dirs: seq<string>, load: string -> seq<Doc>,
                            split: seq<Doc> -> seq<Doc>, page: Doc, chunk: Doc)
    requires load(JoinPath(root, "paper1.pdf")) == [page]
    requires split([page]) == [chunk]
    requires "source" in chunk.metadata && chunk.metadata["source"] == JoinPath(root, "paper1.pdf")
    requires "page_label" in chunk.metadata && chunk.metadata["page_label"] == "1"
    ensures Ingestion.IndexDocs(split(Ingestion.LoadedPages(
              Ingestion.PdfPaths([Ingestion.WalkEntry(root, dirs, ["paper1.pdf"])]), load)))
            == Success(Ingestion.Indexed([chunk.pageContent], [map["source" := "Title: paper1, Page: 1"]]))
  {
    var path := JoinPath(root, "paper1.pdf");
    SinglePaperSelected(root, dirs);
    assert [path][..0] == [];
    assert Ingestion.LoadedPages([path], load) == [page];
    SinglePaperCitation(root, chunk);
    var citation := map["source" := "Title: paper1, Page: 1"];
    assert [chunk][..0] == [];
    assert Ingestion.IndexDocs([chunk])
        == Success(Ingestion.Indexed([] + [chunk.pageContent], [] + [citation]));
    assert [] + [chunk.pageContent] == [chunk.pageContent] && [] + [citation] == [citation];
  }

  /** A run of one repeated source is cited once. */
  lemma {:induction false} DedupConstant(xs: seq<string>, c: string)
    requires |xs| > 0
    requires forall k :: 0 <= k < |xs| ==> xs[k] == c
    ensures Query.Dedup(xs) == [c]
  {
    var n := |xs| - 1;
    if n > 0 {
      DedupConstant(xs[..n], c);
    }
  }

  /** Asking about that paper cites exactly "Title: paper1, Page: 1". */
  lemma SinglePaperCited(retrieved: seq<Doc>)
    requires |retrieved| > 0
    requires forall k :: 0 <= k < |retrieved| ==>
               "source" in retrieved[k].metadata && retrieved[k].metadata["source"] == "Title: paper1, Page: 1"
    ensures Query.SourceList(retrieved) == ["Title: paper1, Page: 1"]
  {
    DedupConstant(Query.EffectiveSources(retrieved), "Title: paper1, Page: 1");
  }

  /** `strip()` changes a string exactly when it shortens it. */
  lemma StripShortensOrKeeps(s: string)
    ensures Strip(s) != s ==> |Strip(s)| < |s|
  {
    var r := Strip(s);
    var a := |s| - |StripLeft(s)|;
    assert a + |r| <= |s| && r == s[a..a + |r|];
    if |r| == |s| {
      assert a == 0;
      assert s[0..|s|] == s;
    }
  }

  /**
   * The ingestion script uses the org id and dataset name as typed, the
   * query script strips them first: both scripts address the same dataset
   * exactly when the lines were typed without surrounding whitespace.
   */
  lemma QueryOpensIngestedDataset(env: map<string, string>, typedCohere: string, typedActiveloop: string,
                                  typedHuggingface: string, orgLine: string, datasetLine: string)
    requires Query.StartSession(env, typedCohere, typedActiveloop, typedHuggingface, orgLine, datasetLine).Success?
    ensures var session := Query.StartSession(env, typedCohere, typedActiveloop, typedHuggingface,
                                              orgLine, datasetLine).value;
            Hub.DatasetPath(session.orgId, session.datasetName) == Hub.DatasetPath(orgLine, datasetLine)
            <==> Strip(orgLine) == orgLine && Strip(datasetLine) == datasetLine
  {
    StripShortensOrKeeps(orgLine);
    StripShortensOrKeeps(datasetLine);
  }

  /** An org id typed with a leading space names another dataset at ingestion than at query time. */
  lemma PaddedOrgIdNamesAnotherDataset()
    ensures Strip(" org") == "org"
    ensures Hub.DatasetPath(" org", "data") != Hub.DatasetPath(Strip(" org"), Strip("data"))
  {
    assert IsSpace(' ') && !IsSpace('o') && !IsSpace('g') && !IsSpace('a');
    assert " org"[1..] == "org";
    assert StripLeft("org") == "org";
    assert StripLeft(" org") == "org";
    StripKeepsTrimmed("org");
    StripKeepsTrimmed("data");
    assert Hub.DatasetPath(" org", "data")[6] == ' ';
    assert Hub.DatasetPath("org", "data")[6] == 'o';
  }
}
