/**
 * The bookkeeping of the ingestion script: which files of the directory
 * walk are loaded, how their pages are concatenated, and which texts and
 * citation metadata are handed to the vector store. The walk, the PDF
 * loader and the text splitter are external; their results reach this
 * module as values (a sequence of walk entries, a loading function, a
 * sequence of chunks).
 */
module Ingestion {
  import opened Wrappers
  import opened Text
  import opened Paths
  import opened Documents

  const PDF_SUFFIX := ".pdf"

  // ---------------------------------------------------------------------
  // Selecting the PDF files

  /** One `(root, dirs, files)` triple produced by `os.walk`. */
  datatype WalkEntry = WalkEntry(root: string, dirs: seq<string>, files: seq<string>)

  /** `file.lower().endswith(".pdf")`. */
  predicate IsPdfName(name: string)
  {
    EndsWith(Lower(name), PDF_SUFFIX)
  }

  /** The suffix test is case-insensitive, letter by letter. */
  lemma PdfNameByCharacters(name: string)
    ensures IsPdfName(name) <==>
              && |name| >= 4
              && name[|name| - 4] == '.'
              && (name[|name| - 3] == 'p' || name[|name| - 3] == 'P')
              && (name[|name| - 2] == 'd' || name[|name| - 2] == 'D')
              && (name[|name| - 1] == 'f' || name[|name| - 1] == 'F')
  {
    var n := |name|;
    if n >= 4 {
      var tail := Lower(name)[n - 4..];
      assert tail == [LowerChar(name[n - 4]), LowerChar(name[n - 3]), LowerChar(name[n - 2]), LowerChar(name[n - 1])];
    }
  }

  lemma PdfNameExamples()
    ensures IsPdfName("A.PDF")
    ensures IsPdfName("paper1.pdf")
    ensures !IsPdfName("a.pdf.txt")
    ensures !IsPdfName("pdf")
  {
    PdfNameByCharacters("A.PDF");
    PdfNameByCharacters("paper1.pdf");
    PdfNameByCharacters("a.pdf.txt");
    PdfNameByCharacters("pdf");
  }

  /** The paths the inner loop appends for one directory, in listing order. */
  function PdfsIn(root: string, files: seq<string>): seq<string>
  {
    if files == [] then []
    else
      var last := files[|files| - 1];
      PdfsIn(root, files[..|files| - 1]) + (if IsPdfName(last) then [JoinPath(root, last)] else [])
  }

  /** `pdf_files` after the walk: each directory's PDF paths, in walk order. */
  function PdfPaths(walk: seq<WalkEntry>): seq<string>
  {
    if walk == [] then []
    else
      var last := walk[|walk| - 1];
      PdfPaths(walk[..|walk| - 1]) + PdfsIn(last.root, last.files)
  }

  /**
   * The collecting loop: for each directory of the walk and each file in
   * it, append `os.path.join(root, file)` when the name ends in `.pdf`.
   */
  method SelectPdfFiles(walk: seq<WalkEntry>) returns (pdfFiles: seq<string>)
    ensures pdfFiles == PdfPaths(walk)
  {
    pdfFiles := [];
    for k := 0 to |walk|
      invariant pdfFiles == PdfPaths(walk[..k])
    {
      var entry := walk[k];
      assert walk[..k + 1][..k] == walk[..k];
      ghost var before := pdfFiles;
      for j := 0 to |entry.files|
        invariant pdfFiles == before + PdfsIn(entry.root, entry.files[..j])
      {
        var file := entry.files[j];
        assert entry.files[..j + 1][..j] == entry.files[..j];
        if IsPdfName(file) {
          pdfFiles := pdfFiles + [JoinPath(entry.root, file)];
        }
      }
      assert entry.files[..|entry.files|] == entry.files;
    }
    assert walk[..|walk|] == walk;
  }

  /** A directory contributes the joined paths of its PDF names and nothing else. */
  lemma {:induction false} PdfsInMembers(root: string, files: seq<string>)
    ensures forall x :: x in PdfsIn(root, files) <==>
              exists j :: 0 <= j < |files| && IsPdfName(files[j]) && x == JoinPath(root, files[j])
  {
    if files != [] {
      var init := files[..|files| - 1];
      PdfsInMembers(root, init);
      forall j | 0 <= j < |init| ensures init[j] == files[j] { }
    }
  }

  /** A path is selected exactly when some walked file with a PDF name joins to it. */
  lemma {:induction false} PdfPathsMembers(walk: seq<WalkEntry>)
    ensures forall x :: x in PdfPaths(walk) <==>
              exists k, j :: 0 <= k < |walk| && 0 <= j < |walk[k].files|
                             && IsPdfName(walk[k].files[j]) && x == JoinPath(walk[k].root, walk[k].files[j])
  {
    if walk != [] {
      var n := |walk| - 1;
      var init := walk[..n];
      PdfPathsMembers(init);
      PdfsInMembers(walk[n].root, walk[n].files);
      forall k | 0 <= k < n ensures init[k] == walk[k] { }
    }
  }

  /** The number of PDF names in a file listing. */
  function PdfCount(files: seq<string>): nat
  {
    if files == [] then 0 else (if IsPdfName(files[0]) then 1 else 0) + PdfCount(files[1..])
  }

  /** The number of PDF names over the whole walk. */
  function WalkPdfCount(walk: seq<WalkEntry>): nat
  {
    if walk == [] then 0 else PdfCount(walk[0].files) + WalkPdfCount(walk[1..])
  }

  lemma {:induction false} PdfCountSnoc(files: seq<string>, f: string)
    ensures PdfCount(files + [f]) == PdfCount(files) + (if IsPdfName(f) then 1 else 0)
  {
    if files != [] {
      assert (files + [f])[1..] == files[1..] + [f];
      PdfCountSnoc(files[1..], f);
    }
  }

  lemma {:induction false} WalkPdfCountSnoc(walk: seq<WalkEntry>, e: WalkEntry)
    ensures WalkPdfCount(walk + [e]) == WalkPdfCount(walk) + PdfCount(e.files)
  {
    if walk != [] {
      assert (walk + [e])[1..] == walk[1..] + [e];
      WalkPdfCountSnoc(walk[1..], e);
    }
  }

  /** Each directory contributes one path per PDF name. */
  lemma {:induction false} PdfsInLength(root: string, files: seq<string>)
    ensures |PdfsIn(root, files)| == PdfCount(files)
  {
    if files != [] {
      var init := files[..|files| - 1];
      PdfsInLength(root, init);
      assert files == init + [files[|files| - 1]];
      PdfCountSnoc(init, files[|files| - 1]);
    }
  }

  /** The walk yields one path per PDF name, over all directories. */
  lemma {:induction false} PdfPathsLength(walk: seq<WalkEntry>)
    ensures |PdfPaths(walk)| == WalkPdfCount(walk)
  {
    if walk != [] {
      var n := |walk| - 1;
      PdfPathsLength(walk[..n]);
      PdfsInLength(walk[n].root, walk[n].files);
      assert walk == walk[..n] + [walk[n]];
      WalkPdfCountSnoc(walk[..n], walk[n]);
    }
  }

  lemma {:induction false} PdfsInPrefix(root: string, files: seq<string>, j: nat)
    requires j <= |files|
    ensures PdfsIn(root, files[..j]) <= PdfsIn(root, files)
  {
    if j < |files| {
      var init := files[..|files| - 1];
      assert files[..j] == init[..j];
      PdfsInPrefix(root, init, j);
      assert PdfsIn(root, init) <= PdfsIn(root, files);
    } else {
      assert files[..j] == files;
    }
  }

  lemma {:induction false} PdfPathsPrefix(walk: seq<WalkEntry>, k: nat)
    requires k <= |walk|
    ensures PdfPaths(walk[..k]) <= PdfPaths(walk)
  {
    if k < |walk| {
      var init := walk[..|walk| - 1];
      assert walk[..k] == init[..k];
      PdfPathsPrefix(init, k);
      assert PdfPaths(init) <= PdfPaths(walk);
    } else {
      assert walk[..k] == walk;
    }
  }

  /**
   * Walk order: the path of the `j`-th file of the `k`-th directory, when
   * that file is a PDF, comes right after the paths of all earlier
   * directories and of the earlier PDF files of its own directory.
   */
  lemma PdfPathsPosition(walk: seq<WalkEntry>, k: nat, j: nat)
    requires k < |walk| && j < |walk[k].files| && IsPdfName(walk[k].files[j])
    ensures |PdfPaths(walk[..k])| + |PdfsIn(walk[k].root, walk[k].files[..j])| < |PdfPaths(walk)|
    ensures PdfPaths(walk)[|PdfPaths(walk[..k])| + |PdfsIn(walk[k].root, walk[k].files[..j])|]
            == JoinPath(walk[k].root, walk[k].files[j])
  {
    var e := walk[k];
    var files := e.files;
    assert files[..j + 1][..j] == files[..j];
    assert PdfsIn(e.root, files[..j + 1]) == PdfsIn(e.root, files[..j]) + [JoinPath(e.root, files[j])];
    PdfsInPrefix(e.root, files, j + 1);
    assert walk[..k + 1][..k] == walk[..k];
    assert PdfPaths(walk[..k + 1]) == PdfPaths(walk[..k]) + PdfsIn(e.root, files);
    PdfPathsPrefix(walk, k + 1);
  }

  // ---------------------------------------------------------------------
  // Loading pages

  /** `all_pages`: the pages of each selected file, file after file. */
  function LoadedPages(pdfFiles: seq<string>, load: string -> seq<Doc>): seq<Doc>
  {
    if pdfFiles == [] then []
    else LoadedPages(pdfFiles[..|pdfFiles| - 1], load) + load(pdfFiles[|pdfFiles| - 1])
  }

  /** The loading loop: each file's pages extend `all_pages`, in file order. */
  method LoadAllPages(pdfFiles: seq<string>, load: string -> seq<Doc>) returns (allPages: seq<Doc>)
    ensures allPages == LoadedPages(pdfFiles, load)
  {
    allPages := [];
    for k := 0 to |pdfFiles|
      invariant allPages == LoadedPages(pdfFiles[..k], load)
    {
      var pages := load(pdfFiles[k]);
      assert pdfFiles[..k + 1][..k] == pdfFiles[..k];
      allPages := allPages + pages;
    }
    assert pdfFiles[..|pdfFiles|] == pdfFiles;
  }

  /** The sum of the per-file page counts. */
  function PageCountSum(pdfFiles: seq<string>, load: string -> seq<Doc>): nat
  {
    if pdfFiles == [] then 0 else |load(pdfFiles[0])| + PageCountSum(pdfFiles[1..], load)
  }

  lemma {:induction false} PageCountSumSnoc(pdfFiles: seq<string>, f: string, load: string -> seq<Doc>)
    ensures PageCountSum(pdfFiles + [f], load) == PageCountSum(pdfFiles, load) + |load(f)|
  {
    if pdfFiles != [] {
      assert (pdfFiles + [f])[1..] == pdfFiles[1..] + [f];
      PageCountSumSnoc(pdfFiles[1..], f, load);
    }
  }

  /** The number of loaded pages is the sum of the per-file page counts. */
  lemma {:induction false} LoadedPagesCount(pdfFiles: seq<string>, load: string -> seq<Doc>)
    ensures |LoadedPages(pdfFiles, load)| == PageCountSum(pdfFiles, load)
  {
    if pdfFiles != [] {
      var n := |pdfFiles| - 1;
      LoadedPagesCount(pdfFiles[..n], load);
      assert pdfFiles == pdfFiles[..n] + [pdfFiles[n]];
      PageCountSumSnoc(pdfFiles[..n], pdfFiles[n], load);
    }
  }

  lemma {:induction false} LoadedPagesPrefix(pdfFiles: seq<string>, load: string -> seq<Doc>, k: nat)
    requires k <= |pdfFiles|
    ensures LoadedPages(pdfFiles[..k], load) <= LoadedPages(pdfFiles, load)
  {
    if k < |pdfFiles| {
      var init := pdfFiles[..|pdfFiles| - 1];
      assert pdfFiles[..k] == init[..k];
      LoadedPagesPrefix(init, load, k);
      assert LoadedPages(init, load) <= LoadedPages(pdfFiles, load);
    } else {
      assert pdfFiles[..k] == pdfFiles;
    }
  }

  /**
   * Page order: the `j`-th page of the `k`-th file comes right after the
   * pages of all earlier files.
   */
  lemma LoadedPagesPosition(pdfFiles: seq<string>, load: string -> seq<Doc>, k: nat, j: nat)
    requires k < |pdfFiles| && j < |load(pdfFiles[k])|
    ensures |LoadedPages(pdfFiles[..k], load)| + j < |LoadedPages(pdfFiles, load)|
    ensures LoadedPages(pdfFiles, load)[|LoadedPages(pdfFiles[..k], load)| + j] == load(pdfFiles[k])[j]
  {
    assert pdfFiles[..k + 1][..k] == pdfFiles[..k];
    assert LoadedPages(pdfFiles[..k + 1], load) == LoadedPages(pdfFiles[..k], load) + load(pdfFiles[k]);
    LoadedPagesPrefix(pdfFiles, load, k + 1);
  }

  // ---------------------------------------------------------------------
  // Texts and citation metadata

  /**
   * The first metadata entry the metadata loop looks up and does not find:
   * `source` is read before `page_label`.
   */
  function MissingKey(d: Doc): Option<string>
  {
    if "source" !in d.metadata then Some("source")
    else if "page_label" !in d.metadata then Some("page_label")
    else None
  }

  /** The citation stored with a chunk: `Title: <file title>, Page: <page label>`. */
  function Citation(d: Doc): string
    requires MissingKey(d).None?
  {
    "Title: " + Stem(d.metadata["source"]) + ", Page: " + d.metadata["page_label"]
  }

  /**
   * A citation starts with `Title: `, followed by the file title of the
   * chunk's source path, which never holds a path separator.
   */
  lemma CitationTitleIsBaseName(d: Doc)
    requires MissingKey(d).None?
    ensures Citation(d)[..7] == "Title: "
    ensures 7 + |Stem(d.metadata["source"])| <= |Citation(d)|
    ensures Citation(d)[7..7 + |Stem(d.metadata["source"])|] == Stem(d.metadata["source"])
    ensures forall i :: 7 <= i < 7 + |Stem(d.metadata["source"])| ==> !IsSep(Citation(d)[i])
  {
    var stem := Stem(d.metadata["source"]);
    StemHasNoSep(d.metadata["source"]);
    assert Citation(d)[7..7 + |stem|] == stem;
    forall i | 7 <= i < 7 + |stem| ensures Citation(d)[i] == stem[i - 7] { }
  }

  /** `all_texts` and `all_metadatas`, index-aligned with the chunks. */
  datatype Indexed = Indexed(texts: seq<string>, metadatas: seq<map<string, string>>)

  /** The `KeyError` raised at the first chunk that lacks a metadata entry. */
  datatype IngestError = MissingMetadata(index: nat, key: string)

  /**
   * The outcome of the metadata loop: either the aligned texts and
   * citations of all chunks, or the error at the first chunk missing an entry.
   */
  function IndexDocs(docs: seq<Doc>): Result<Indexed, IngestError>
  {
    if docs == [] then Success(Indexed([], []))
    else
      var n := |docs| - 1;
      match IndexDocs(docs[..n])
      case Failure(e) => Failure(e)
      case Success(ix) =>
        match MissingKey(docs[n])
        case Some(key) => Failure(MissingMetadata(n, key))
        case None =>
          Success(Indexed(ix.texts + [docs[n].pageContent], ix.metadatas + [map["source" := Citation(docs[n])]]))
  }

  /** One more chunk extends the outcome exactly as one more loop iteration does. */
  lemma IndexDocsStep(docs: seq<Doc>, i: nat)
    requires i < |docs|
    ensures IndexDocs(docs[..i + 1]) ==
              if IndexDocs(docs[..i]).Failure? then IndexDocs(docs[..i])
              else if MissingKey(docs[i]).Some? then Failure(MissingMetadata(i, MissingKey(docs[i]).value))
              else Success(Indexed(IndexDocs(docs[..i]).value.texts + [docs[i].pageContent],
                                   IndexDocs(docs[..i]).value.metadatas + [map["source" := Citation(docs[i])]]))
  {
    assert docs[..i + 1][..i] == docs[..i];
  }

  /** The loop completes exactly when every chunk has both metadata entries. */
  lemma {:induction false} IndexDocsSucceeds(docs: seq<Doc>)
    ensures IndexDocs(docs).Success? <==> forall i :: 0 <= i < |docs| ==> MissingKey(docs[i]).None?
  {
    if docs != [] {
      var n := |docs| - 1;
      IndexDocsSucceeds(docs[..n]);
      assert forall i :: 0 <= i < n ==> docs[..n][i] == docs[i];
    }
  }

  /**
   * On completion `all_texts` and `all_metadatas` hold one entry per chunk,
   * index for index: the chunk's text and its citation.
   */
  lemma {:induction false} IndexDocsAligned(docs: seq<Doc>)
    requires IndexDocs(docs).Success?
    ensures |IndexDocs(docs).value.texts| == |docs| && |IndexDocs(docs).value.metadatas| == |docs|
    ensures forall i :: 0 <= i < |docs| ==> MissingKey(docs[i]).None?
    ensures forall i :: 0 <= i < |docs| ==>
              && IndexDocs(docs).value.texts[i] == docs[i].pageContent
              && IndexDocs(docs).value.metadatas[i] == map["source" := Citation(docs[i])]
  {
    IndexDocsSucceeds(docs);
    if docs != [] {
      var n := |docs| - 1;
      IndexDocsAligned(docs[..n]);
      var ix := IndexDocs(docs[..n]).value;
      var r := IndexDocs(docs).value;
      assert r.texts == ix.texts + [docs[n].pageContent];
      assert r.metadatas == ix.metadatas + [map["source" := Citation(docs[n])]];
      forall i | 0 <= i < n
        ensures r.texts[i] == docs[i].pageContent && r.metadatas[i] == map["source" := Citation(docs[i])]
      {
        assert docs[..n][i] == docs[i];
      }
    }
  }

  /** On failure the error names the first chunk lacking an entry, and the entry it lacks. */
  lemma {:induction false} IndexDocsFirstError(docs: seq<Doc>)
    requires IndexDocs(docs).Failure?
    ensures IndexDocs(docs).error.index < |docs|
    ensures MissingKey(docs[IndexDocs(docs).error.index]) == Some(IndexDocs(docs).error.key)
    ensures forall i :: 0 <= i < IndexDocs(docs).error.index ==> MissingKey(docs[i]).None?
  {
    var n := |docs| - 1;
    if IndexDocs(docs[..n]).Failure? {
      IndexDocsFirstError(docs[..n]);
      assert forall i :: 0 <= i < n ==> docs[..n][i] == docs[i];
    } else {
      IndexDocsSucceeds(docs[..n]);
      assert forall i :: 0 <= i < n ==> docs[..n][i] == docs[i];
    }
  }

  /**
   * The metadata loop: for each chunk by index append its text, then its
   * citation built from the title of its source path and its page label.
   */
  method BuildTextsAndMetadatas(docs: seq<Doc>) returns (r: Result<Indexed, IngestError>)
    ensures r == IndexDocs(docs)
  {
    var allTexts: seq<string> := [];
    var allMetadatas: seq<map<string, string>> := [];
    for i := 0 to |docs|
      invariant IndexDocs(docs[..i]) == Success(Indexed(allTexts, allMetadatas))
    {
      IndexDocsStep(docs, i);
      var metadata := docs[i].metadata;
      allTexts := allTexts + [docs[i].pageContent];
      if "source" !in metadata {
        r := Failure(MissingMetadata(i, "source"));
        FailureIsFinal(docs, i + 1);
        return;
      }
      var filename := Stem(metadata["source"]);
      if "page_label" !in metadata {
        r := Failure(MissingMetadata(i, "page_label"));
        FailureIsFinal(docs, i + 1);
        return;
      }
      allMetadatas := allMetadatas + [map["source" := "Title: " + filename + ", Page: " + metadata["page_label"]]];
    }
    assert docs[..|docs|] == docs;
    r := Success(Indexed(allTexts, allMetadatas));
  }

  /** Once the loop has failed on a prefix, the later chunks do not change the error. */
  lemma {:induction false} FailureIsFinal(docs: seq<Doc>, k: nat)
    requires k <= |docs| && IndexDocs(docs[..k]).Failure?
    ensures IndexDocs(docs) == IndexDocs(docs[..k])
  {
    if k == |docs| {
      assert docs[..k] == docs;
    } else {
      var n := |docs| - 1;
      assert docs[..n][..k] == docs[..k];
      FailureIsFinal(docs[..n], k);
    }
  }

  /**
   * The script's preparation of the store's input: select the PDF files of
   * the walk, load them, split the pages, and build texts and citations.
   */
  method PrepareChunks(walk: seq<WalkEntry>, load: string -> seq<Doc>, split: seq<Doc> -> seq<Doc>)
    returns (r: Result<Indexed, IngestError>)
    ensures r == IndexDocs(split(LoadedPages(PdfPaths(walk), load)))
  {
    var pdfFiles := SelectPdfFiles(walk);
    var allPages := LoadAllPages(pdfFiles, load);
    var docs := split(allPages);
    r := BuildTextsAndMetadatas(docs);
  }

  /** Titles drop the directory part and only the final extension. */
  lemma StemOfRelativePath()
    ensures Stem("dir/paper1.pdf") == "paper1"
  {
    assert "dir/paper1.pdf" == JoinPath("dir/", "paper1.pdf");
    BasenameOfJoin("dir/", "paper1.pdf");
    StemOfName("paper1.pdf", 6);
  }

  lemma StemOfDottedName()
    ensures Stem("a.b.pdf") == "a.b"
  {
    assert "a.b.pdf" == JoinPath("", "a.b.pdf");
    BasenameOfJoin("", "a.b.pdf");
    StemOfName("a.b.pdf", 3);
  }

  lemma StemOfWindowsPath()
    ensures Stem("C:\\articles\\Survey.PDF") == "Survey"
  {
    assert "C:\\articles\\Survey.PDF" == JoinPath("C:\\articles", "Survey.PDF");
    BasenameOfJoin("C:\\articles", "Survey.PDF");
    StemOfName("Survey.PDF", 6);
  }

  lemma StemOfHiddenFile()
    ensures Stem("notes/.hidden") == ".hidden"
  {
    assert "notes/.hidden" == JoinPath("notes/", ".hidden");
    BasenameOfJoin("notes/", ".hidden");
    assert OnlyLeadingDots(".hidden");
    SplitExtNoExtension(".hidden");
  }

  /** A separator-free name with a non-dot first character splits at its last dot. */
  lemma StemOfName(name: string, dot: nat)
    requires dot < |name| && name[dot] == '.' && name[0] != '.'
    requires forall i :: 0 <= i < |name| ==> !IsSep(name[i])
    requires forall i :: dot < i < |name| ==> name[i] != '.'
    ensures SplitExt(name).0 == name[..dot]
  {
    assert AfterLastSep(name) == 0;
    LastDotIsLast(name);
    assert LastDot(name) == dot;
  }
}
