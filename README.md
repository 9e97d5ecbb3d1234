# Research assistant: citation and ingestion bookkeeping

The research assistant is a pair of Python scripts around hosted services.
`vector_database_creation.py` walks a directory for PDF files, loads their
pages, splits them into chunks and writes each chunk with a citation
(`Title: <file title>, Page: <page label>`) into a Deep Lake dataset at
`hub://<org id>/<dataset name>`. `rag_research_assistant_main.py` collects
credentials, opens that dataset, and answers each question. It retrieves
and reranks chunks, joins their texts into a context for a hosted chat
model, and prints the distinct sources of the chunks it used.

This project models the deterministic part of both scripts in Dafny. The
hosted services, the PDF loader and the splitter are replaced by the values
they return. The modules are:

- `Wrappers`: `Option` and `Result`, for the scripts' error paths.
- `Documents`: the LangChain document, `Doc(pageContent, metadata)`.
- `Text`: Python's `str.strip`, `str.join`, `str.lower` and `str.endswith` over `seq<char>`.
- `Paths`: `os.path.basename`, `os.path.splitext` and `os.path.join` with the Windows separators `\` and `/`, as on the Windows machine the script is written for.
- `Hub`: the dataset path. Both scripts build it the same way.
- `Environment`: `get_env_key`. Both scripts define it identically.
- `Query`: setup validation, the context blob and the citation list of the query script.
- `Ingestion`: PDF selection, page concatenation, and the texts and citations of the ingestion script.
- `EndToEnd`: what the two scripts guarantee together.

The loops of the source are Dafny methods with loop invariants. The
selection loop, the loading loop, the metadata loop and the source loop are
each proved equal to a specification function. The properties are proved as
lemmas about those functions.

`final_formatted_answer` has an `except IndexError` branch
(rag_research_assistant/rag_research_assistant_main.py:103-105) that would
append `No sources`. The loop runs over `range(len(compressed_docs))` and
cannot raise `IndexError`, so the branch is dead. An empty retrieval gives an
empty list (`Query.NoDocsNoSources`), and the model has no sentinel.

Paths follow Python's Windows `os.path` (`ntpath`), because the ingestion
script finds its articles under `~\Desktop` (vector_database_creation.py:13),
a Windows path. There both `\` and `/` separate path components, whereas
POSIX `basename` splits at `/` only.

## Model

| member | source | states |
|---|---|---|
| `Hub.DatasetPath` | rag_research_assistant/rag_research_assistant_main.py:62 | the path is `hub://`, then the org id, then `/`, then the dataset name, with nothing else |
| `Hub.DatasetPathRoundTrip` | vector_database_creation.py:55 | an org id without `/` and the dataset name are read back unchanged from the path |
| `Hub.DatasetPathInjective` | rag_research_assistant/rag_research_assistant_main.py:62 | two different (org id without `/`, dataset name) pairs never share a path |
| `Hub.DatasetPathAmbiguous` | vector_database_creation.py:55 | with a `/` inside the org id, two different pairs do share a path |
| `Environment.GetEnvKey` | rag_research_assistant/rag_research_assistant_main.py:132-138 | the environment value is used, with no prompt, exactly when it is set and non-empty; otherwise the typed value is used |
| `Query.EnvironmentCohereKeyWins` | rag_research_assistant/rag_research_assistant_main.py:148 | with `COHERE_API_KEY` set to a non-empty value, the session uses it, and the Cohere key typed at the prompt has no effect on the setup outcome |
| `Query.EmptyTypedCohereKeyFails` | rag_research_assistant/rag_research_assistant_main.py:148-154 | with no Cohere key in the environment, an empty typed key ends setup with the Cohere error |
| `Query.ValidateSetup` | rag_research_assistant/rag_research_assistant_main.py:153-164 | setup succeeds exactly when all three credentials are non-empty and the stripped org id and dataset name are non-empty; each credential error is raised exactly when it is the first empty one; a session holds the stripped identifiers |
| `Query.CollectSources` | rag_research_assistant/rag_research_assistant_main.py:97-102 | the index loop returns the deduplicated effective sources of the documents |
| `Query.DedupSnoc` | rag_research_assistant/rag_research_assistant_main.py:100-102 | one more document appends its source exactly when the source is not yet listed |
| `Query.DedupMembers` | rag_research_assistant/rag_research_assistant_main.py:99-102 | deduplication keeps exactly the elements of its input |
| `Query.DedupNoDuplicates` | rag_research_assistant/rag_research_assistant_main.py:101 | no source is listed twice |
| `Query.DedupLength` | rag_research_assistant/rag_research_assistant_main.py:99-102 | the list is never longer than its input |
| `Query.IndexOfSnoc` | rag_research_assistant/rag_research_assistant_main.py:102 | appending never moves the first occurrence of an element already present |
| `Query.DedupFirstSeenOrder` | rag_research_assistant/rag_research_assistant_main.py:99-102 | listed sources appear in the order of their first occurrences |
| `Query.SourceListSpec` | rag_research_assistant/rag_research_assistant_main.py:99-102 | every document's effective source is listed, every listed source comes from a document, none twice, in first-seen order, at most one per document |
| `Query.NoDocsNoSources` | rag_research_assistant/rag_research_assistant_main.py:97-105 | no documents give an empty list, not a sentinel |
| `Query.SourceListExample` | rag_research_assistant/rag_research_assistant_main.py:99-102 | sources A, B, A, C are cited as A, B, C |
| `Query.DedupExample` | rag_research_assistant/rag_research_assistant_main.py:99-102 | deduplicating A, B, A, C gives A, B, C |
| `Query.MissingSourceIsUnknown` | rag_research_assistant/rag_research_assistant_main.py:100 | a document without `source` is cited as `Unknown Source` |
| `Query.ContextOfNoDocs` | rag_research_assistant/rag_research_assistant_main.py:87-88 | no documents give the empty context |
| `Query.ContextIsTrimmed` | rag_research_assistant/rag_research_assistant_main.py:88 | the context neither starts nor ends with whitespace |
| `Query.ContextIsJoin` | rag_research_assistant/rag_research_assistant_main.py:88 | when the first chunk starts and the last chunk ends with non-whitespace, the context is the plain join of the chunk texts |
| `Query.ContextKeepsWholeChunks` | rag_research_assistant/rag_research_assistant_main.py:87-88 | in that case each chunk text sits whole at its offset in the context, in retrieval order |
| `Query.ContextSeparatesChunks` | rag_research_assistant/rag_research_assistant_main.py:88 | in that case each chunk text but the last is followed by the blank line `\n\n` and then the next chunk text |
| `Query.ResearcherInputKeepsContext` | rag_research_assistant/rag_research_assistant_main.py:93 | stripping the context again for the prompt changes nothing |
| `Query.IndexOf` | rag_research_assistant/rag_research_assistant_main.py:101 | the position of the first occurrence, or the length when absent |
| `Text.StripLeft` | rag_research_assistant/rag_research_assistant_main.py:88 | the result is a suffix, everything dropped is whitespace, and it does not start with whitespace |
| `Text.StripRight` | rag_research_assistant/rag_research_assistant_main.py:88 | the result is a prefix, everything dropped is whitespace, and it does not end with whitespace |
| `Text.Strip` | rag_research_assistant/rag_research_assistant_main.py:88 | the result is a slice of the input with only whitespace cut off at both ends, and it has no whitespace at either end |
| `Text.StripKeepsTrimmed` | rag_research_assistant/rag_research_assistant_main.py:93 | a string without whitespace at its ends is unchanged by strip |
| `Text.StripAllSpace` | rag_research_assistant/rag_research_assistant_main.py:160-163 | an all-whitespace line strips to the empty string |
| `Text.StripIdempotent` | rag_research_assistant/rag_research_assistant_main.py:93 | stripping twice is stripping once |
| `Text.JoinUnfold` | rag_research_assistant/rag_research_assistant_main.py:88 | a join of two or more pieces is the first piece, the separator, and the join of the rest |
| `Text.JoinPieceAt` | rag_research_assistant/rag_research_assistant_main.py:88 | each piece sits in the join at its offset |
| `Text.JoinOffsetNext` | rag_research_assistant/rag_research_assistant_main.py:88 | the next piece starts one separator after the end of the previous one |
| `Text.JoinSeparatorAt` | rag_research_assistant/rag_research_assistant_main.py:88 | the separator follows each piece but the last |
| `Text.JoinPieces` | rag_research_assistant/rag_research_assistant_main.py:88 | each piece sits in the join at its offset, with the separator between neighbours |
| `Text.JoinEndsWithLast` | rag_research_assistant/rag_research_assistant_main.py:88 | the last piece ends the join |
| `Text.JoinTrimmedEnds` | rag_research_assistant/rag_research_assistant_main.py:88 | a join whose outer ends are not whitespace is unchanged by strip |
| `Ingestion.PdfNameByCharacters` | vector_database_creation.py:21 | a name is selected exactly when its last four characters are `.`, `p`/`P`, `d`/`D`, `f`/`F` |
| `Ingestion.PdfNameExamples` | vector_database_creation.py:21 | `A.PDF` and `paper1.pdf` are selected; `a.pdf.txt` and `pdf` are not |
| `Ingestion.SelectPdfFiles` | vector_database_creation.py:18-22 | the walk loop returns the joined paths of the PDF names, directory by directory, in listing order |
| `Ingestion.PdfsInMembers` | vector_database_creation.py:20-22 | a directory contributes exactly the joined paths of its PDF names |
| `Ingestion.PdfPathsMembers` | vector_database_creation.py:18-22 | a path is selected exactly when it joins a walked directory to one of its PDF names |
| `Ingestion.PdfCountSnoc` | vector_database_creation.py:21 | one more name adds one to the count exactly when it is a PDF name |
| `Ingestion.WalkPdfCountSnoc` | vector_database_creation.py:19 | one more directory adds its count of PDF names |
| `Ingestion.PdfsInLength` | vector_database_creation.py:20-22 | a directory contributes one path per PDF name |
| `Ingestion.PdfPathsLength` | vector_database_creation.py:18-22 | the walk yields one path per PDF name, so nothing else is selected and nothing twice |
| `Ingestion.PdfsInPrefix` | vector_database_creation.py:20-22 | a directory's earlier names contribute a prefix of its paths |
| `Ingestion.PdfPathsPrefix` | vector_database_creation.py:19-22 | earlier directories contribute a prefix of the selected paths |
| `Ingestion.PdfPathsPosition` | vector_database_creation.py:18-22 | each PDF file's path sits right after those of earlier directories and earlier PDF files of its own directory |
| `Ingestion.LoadAllPages` | vector_database_creation.py:25-29 | the loading loop returns the pages of each selected file, file after file |
| `Ingestion.PageCountSumSnoc` | vector_database_creation.py:26-29 | one more file adds its page count |
| `Ingestion.LoadedPagesCount` | vector_database_creation.py:25-29 | the number of loaded pages is the sum of the per-file page counts |
| `Ingestion.LoadedPagesPrefix` | vector_database_creation.py:25-29 | earlier files contribute a prefix of the pages |
| `Ingestion.LoadedPagesPosition` | vector_database_creation.py:25-29 | the `j`-th page of the `k`-th file comes right after the pages of the earlier files |
| `Ingestion.CitationTitleIsBaseName` | vector_database_creation.py:39-40 | a citation starts with `Title: `, followed by the file title of the chunk's source path, which holds no path separator |
| `Ingestion.IndexDocsStep` | vector_database_creation.py:37-40 | one more chunk extends the outcome as one more loop iteration does, failing with the first missing key |
| `Ingestion.IndexDocsSucceeds` | vector_database_creation.py:37-40 | the loop completes exactly when every chunk has both `source` and `page_label` |
| `Ingestion.IndexDocsAligned` | vector_database_creation.py:36-40 | on completion the texts and metadatas have one entry per chunk: the chunk's text and `{source: Title: <stem>, Page: <label>}` |
| `Ingestion.IndexDocsFirstError` | vector_database_creation.py:39-40 | the `KeyError` names the first chunk lacking an entry, and that entry (`source` before `page_label`) |
| `Ingestion.BuildTextsAndMetadatas` | vector_database_creation.py:36-40 | the metadata loop returns the aligned texts and citations, or the first missing-key error |
| `Ingestion.FailureIsFinal` | vector_database_creation.py:39-40 | later chunks do not change the first error |
| `Ingestion.PrepareChunks` | vector_database_creation.py:18-40 | the script's input to the store is the indexing of the split pages of the selected files |
| `Ingestion.StemOfRelativePath` | vector_database_creation.py:39 | `dir/paper1.pdf` has the title `paper1` |
| `Ingestion.StemOfDottedName` | vector_database_creation.py:39 | `a.b.pdf` has the title `a.b` |
| `Ingestion.StemOfWindowsPath` | vector_database_creation.py:39 | `C:\articles\Survey.PDF` has the title `Survey` |
| `Ingestion.StemOfHiddenFile` | vector_database_creation.py:39 | `notes/.hidden` keeps its leading dot: its title is `.hidden` |
| `Ingestion.StemOfName` | vector_database_creation.py:39 | a separator-free name not starting with `.` splits at its last dot |
| `Paths.AfterLastSep` | vector_database_creation.py:39 | the index just past the last separator, which is preceded by a separator |
| `Paths.AfterLastSepIsLast` | vector_database_creation.py:39 | no separator comes after that index |
| `Paths.BasenameIsLastComponent` | vector_database_creation.py:39 | the base name is a separator-free suffix of the path, preceded by a separator when shorter |
| `Paths.BasenameHasNoSep` | vector_database_creation.py:39 | a base name holds no separator |
| `Paths.LastDot` | vector_database_creation.py:39 | the index of a `.`, or -1 |
| `Paths.LastDotIsLast` | vector_database_creation.py:39 | no `.` follows it |
| `Paths.NonDotIndex` | vector_database_creation.py:39 | a position holding a character other than `.` |
| `Paths.NoNonDot` | vector_database_creation.py:39 | a string with no such position is all dots |
| `Paths.SplitExtParts` | vector_database_creation.py:39 | root and extension concatenate to the input; a non-empty extension is `.` followed by neither `.` nor a separator |
| `Paths.SplitExtNoExtension` | vector_database_creation.py:39 | there is no extension exactly when every dot of the last component leads it |
| `Paths.BasenameOfJoin` | vector_database_creation.py:22 | the base name of a joined path is the joined name |
| `Paths.StemHasNoSep` | vector_database_creation.py:39 | a file title holds no separator |
| `Paths.StemDropsFinalExtension` | vector_database_creation.py:39 | the title is the base name minus at most its final extension, which starts with `.` and holds no other `.` |
| `EndToEnd.StoredChunksAreAttributed` | vector_database_creation.py:36-40 | when every retrieved chunk's `source` entry is one the ingestion stored (other entries are free), every printed source is the citation of an ingested chunk, never `Unknown Source` |
| `EndToEnd.StoredSource` | rag_research_assistant/rag_research_assistant_main.py:100 | a chunk whose `source` entry was stored is cited by the citation built for its ingested chunk, whatever other entries it carries |
| `EndToEnd.CitationIsNotUnknown` | vector_database_creation.py:40 | a citation is never `Unknown Source` |
| `EndToEnd.SinglePaperSelected` | vector_database_creation.py:18-22 | a directory listing only `paper1.pdf` selects that one file |
| `EndToEnd.PaperNameHasNoSep` | vector_database_creation.py:22 | the name `paper1.pdf` holds no path separator |
| `EndToEnd.PaperStem` | vector_database_creation.py:39 | the file title of `paper1.pdf`, in any directory, is `paper1` |
| `EndToEnd.SinglePaperCitation` | vector_database_creation.py:39-40 | a chunk whose `source` is the joined path of `paper1.pdf` and whose `page_label` is `1` (other entries are free) has the citation `Title: paper1, Page: 1` |
| `EndToEnd.SinglePaperIngested` | vector_database_creation.py:18-40 | ingesting one one-page `paper1.pdf` stores its one chunk with `Title: paper1, Page: 1` |
| `EndToEnd.DedupConstant` | rag_research_assistant/rag_research_assistant_main.py:99-102 | a run of one repeated source is cited once |
| `EndToEnd.SinglePaperCited` | rag_research_assistant/rag_research_assistant_main.py:99-102 | retrieving chunks whose `source` entry is `Title: paper1, Page: 1` (other entries, such as a relevance score, are free) cites exactly that |
| `EndToEnd.StripShortensOrKeeps` | rag_research_assistant/rag_research_assistant_main.py:160-161 | `strip()` either leaves a line as it is or makes it shorter |
| `EndToEnd.QueryOpensIngestedDataset` | vector_database_creation.py:77-78 | both scripts address the same dataset exactly when the org id and dataset name lines were typed without surrounding whitespace |
| `EndToEnd.PaddedOrgIdNamesAnotherDataset` | rag_research_assistant/rag_research_assistant_main.py:160 | an org id typed with a leading space addresses another dataset at ingestion than at query time |

## Left out

- The hosted services: Cohere embeddings and rerank, the Deep Lake store (`DeepLake(...)`, `add_texts`, `as_retriever`), the Hugging Face endpoint and the prompt chain `invoke`. They are opaque network APIs. The query model starts from the reranked documents they return.
- The `ConnectionError` handling in the query script's `vector_database`. It only prints a message after a failed network call.
- `PyPDFLoader` and `RecursiveCharacterTextSplitter` (chunk size 3000, overlap 700). They are library code. The model takes the loader as a function from path to pages and the splitter as a function from pages to chunks.
- `os.walk`. The model takes the walk as a given sequence of `(root, dirs, files)` entries.
- `.env` loading, `input`, `print`, `time.sleep` and `exit`. So are the interactive retry and exit loops, including the question prompt's `strip().lower()` and the `no`/`yes`, `exit`/`leave` and `STOP` commands. They are console glue. Environment variables and typed lines are parameters.
- The prompt template text and the model configuration constants. They are strings passed to external services.
- `Text.Lower`: covers ASCII letters only, not Python's full Unicode `str.lower`. No other character lowercases to a string ending in `.`, `p`, `d` or `f`, so the `.pdf` selection test is still exact.
- `Paths.JoinPath`: does not model drive-letter or UNC prefixes of `ntpath`. For example, `join("C:", f)` gives `C:f` in Python but `C:\f` here. The walked roots all lie inside a full directory path, where the two agree.
- `Paths.Basename`: does not split off a drive prefix first. A path like `C:paper.pdf` keeps `C:` in its base name.
- `Ingestion.IndexDocs`: the script does not catch a missing `source` or `page_label` key, so the `KeyError` ends the program. The model returns the error as a `Failure` value and drops the partly filled lists.
