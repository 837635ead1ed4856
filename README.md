# RAG chatbot core in Dafny

This project models the logic that the RAG chatbot writes itself. The chatbot has
two scripts: an ingestion script and a query script. The rest of the program is
calls into document loaders, a text splitter, an embedding model, a vector store
and a chat model. Those are not modelled.

- **Ingestion** (`rag_ingest_multi.py`, module `RagIngest`):
  - A fixed table maps a lower-cased file extension to one of six loaders.
  - Each entry of a folder listing is looked up in that table, in listing order.
  - A matching entry is handed to its loader.
  - Every document the loader returns gets `source` (the entry's name) and `file_type` (the lower-cased extension) in its metadata.
  - A loader error is logged and the entry gives no documents.
  - Chunks are then deduplicated. Two chunks are duplicates when their texts are equal after stripping surrounding whitespace. The first occurrence wins, and the `seen` dictionary keeps the metadata of that first occurrence.
- **Query** (`rag_query.py`, module `RagQuery`):
  - `format_docs` joins the retrieved documents' stripped texts, each under a `---` line, with blank lines between them.
  - `inject_context` retrieves with the raw question. It returns the question, the formatted context and the history, and the history is passed on unchanged.
  - `Mymemory` is an append-only message list with `clear`.
  - The chat loop stops on a line that reads `exit` after stripping and lower-casing.

Supporting modules:

- `PyText` models Python's `str.strip()`, using the full `str.isspace()` character set, and `str.lower()`.
- `PosixPath` models `os.path.splitext` and `os.path.join` in their POSIX form.
- `Documents` defines the document record and the `Result` type used for a call that may raise.

The loaders, the directory listing and the retriever are parameters: a function value, or a sequence for the listing.

Methods are proved against specification functions. `LoadAllDocuments` is proved against `LoadedDocs`, and `DeduplicateChunks` against `Dedup` and `FirstSeen`. The lemmas then state what the source promises about those functions.

## Model

| member | source | states |
|---|---|---|
| `PyText.IsSpace` | rag_ingest_multi.py:91 | the definition is the model: the characters Python's `str.isspace()` accepts, written out as a set of code points; `Strip`, `LStripShape` and `RStripShape` are stated in terms of it |
| `PyText.LStrip` | rag_ingest_multi.py:91 | the definition is the model of `str.lstrip()`; `LStripShape` characterises it |
| `PyText.RStrip` | rag_ingest_multi.py:91 | the definition is the model of `str.rstrip()`; `RStripShape` characterises it |
| `PyText.Strip` | rag_ingest_multi.py:91 | `str.strip()`: the result is no longer than the input and neither starts nor ends with whitespace |
| `PyText.LStripShape` | rag_ingest_multi.py:91 | `lstrip` removes exactly a whitespace prefix and stops at a non-whitespace character |
| `PyText.RStripShape` | rag_ingest_multi.py:91 | `rstrip` removes exactly a whitespace suffix and stops at a non-whitespace character |
| `PyText.StripDecompose` | rag_ingest_multi.py:91 | every string is whitespace, then its stripped form, then whitespace |
| `PyText.StripPadded` | rag_ingest_multi.py:91 | stripping a stripped string padded with whitespace on both sides gives that string back, so the stripped core is unique |
| `PyText.StripIdempotent` | rag_ingest_multi.py:91 | a fact about `str.strip()` itself, applied here: stripping twice is the same as stripping once |
| `PyText.LowerChar` | rag_ingest_multi.py:66 | the definition is the model of lower-casing one character (ASCII letters only, see Left out); `LowerShape` is stated in terms of it |
| `PyText.Lower` | rag_ingest_multi.py:66 | the definition is the model of `str.lower()`; `LowerShape` characterises it |
| `PyText.LowerShape` | rag_ingest_multi.py:66 | `lower()` keeps the length and lower-cases each character on its own |
| `PosixPath.RFind` | rag_ingest_multi.py:66 | the definition is the model of `str.rfind` on one character, which `splitext` uses; `RFindLast` characterises it |
| `PosixPath.RFindLast` | rag_ingest_multi.py:66 | `rfind` returns the last occurrence of the character, or -1 exactly when it does not occur |
| `PosixPath.SplitExt` | rag_ingest_multi.py:66 | the definition is the model of POSIX `os.path.splitext`: the last dot after the last `/`, provided a non-dot precedes it in that component; `SplitExtShape`, `ExtOfDottedName`, `ExtWithoutDot` and `ExtOfHiddenName` characterise it |
| `PosixPath.Ext` | rag_ingest_multi.py:66 | the definition is the model of `os.path.splitext(filename)[1]`; characterised by the same lemmas |
| `PosixPath.SplitExtShape` | rag_ingest_multi.py:66 | `splitext` splits its argument into root + ext; ext is empty, or one dot followed by no further dot and no `/` |
| `PosixPath.ExtOfDottedName` | rag_ingest_multi.py:66 | a name with a non-dot character before its last dot has the suffix from that dot as its extension |
| `PosixPath.ExtWithoutDot` | rag_ingest_multi.py:66 | a name without a dot has an empty extension |
| `PosixPath.ExtOfHiddenName` | rag_ingest_multi.py:66 | a name whose last dot is preceded only by dots, such as `.bashrc` or `..pdf`, has an empty extension |
| `PosixPath.Join` | rag_ingest_multi.py:68 | the joined path ends with the entry name; an absolute name replaces the folder; otherwise a `/` is inserted when the folder is non-empty and does not end in one |
| `RagIngest.LoaderMap` | rag_ingest_multi.py:52-59 | the definition is the model of `LOADER_MAP`: six extensions, each mapped to its loader kind; `RecognizedExtensions` states its key set |
| `RagIngest.FileType` | rag_ingest_multi.py:66 | the definition is the model of `os.path.splitext(filename)[1].lower()`; `DispatchIgnoresCase`, `UpperCasePdfIsLoaded` and `HiddenPdfIsSkipped` characterise it |
| `RagIngest.RecognizedExtensions` | rag_ingest_multi.py:52-59 | the table's keys are exactly `.pdf .txt .docx .html .csv .db` |
| `RagIngest.DispatchIgnoresCase` | rag_ingest_multi.py:66-67 | a name whose dot-suffix lower-cases to a table key is dispatched under that key, whatever its letter case |
| `RagIngest.UpperCasePdfIsLoaded` | rag_ingest_multi.py:53-67 | `REPORT.PDF` has file type `.pdf` and goes to the PDF loader |
| `RagIngest.HiddenPdfIsSkipped` | rag_ingest_multi.py:66-67 | `.pdf` and `..pdf` have an empty file type, so neither is handed to a loader |
| `RagIngest.FileDocs` | rag_ingest_multi.py:66-82 | the definition is the model of one iteration of the loop: nothing for an unlisted extension or a raising loader, otherwise the loaded documents stamped; `SkippedFileIgnoresLoader`, `RecognizedFileGivesLoaderDocuments` and `FileDocsProvenance` characterise it |
| `RagIngest.SkippedFileIgnoresLoader` | rag_ingest_multi.py:67 | an entry whose extension is not in the table is never handed to a loader: it gives no documents, for every loader |
| `RagIngest.RecognizedFileGivesLoaderDocuments` | rag_ingest_multi.py:66-75 | an entry whose lower-cased extension is in the table is handed to that extension's loader at the joined path: a raised error gives nothing, otherwise exactly the loaded documents, in order, each stamped with the entry's name and file type |
| `RagIngest.Stamp` | rag_ingest_multi.py:73-74 | a stamped document keeps its text; `source` is the filename and `file_type` the extension; every other metadata key is unchanged |
| `RagIngest.StampEach` | rag_ingest_multi.py:72-74 | the in-place stamping loop leaves exactly the stamped documents, in the loader's order |
| `RagIngest.FileDocsProvenance` | rag_ingest_multi.py:66-75 | every document one entry gives has that entry as `source` and its lower-cased, table-listed extension as `file_type` |
| `RagIngest.LoadedDocs` | rag_ingest_multi.py:64-83 | the definition is the model of `all_docs` after the whole listing: each entry's `FileDocs`, in listing order; `LoadedDocsSnoc`, `LoadedDocsAppend`, `LoadedDocsOrder`, `LoadedDocsProvenance` and `FailedFileContributesNothing` characterise it |
| `RagIngest.LoadedDocsSnoc` | rag_ingest_multi.py:65-75 | one more entry appends exactly that entry's documents; this is the step of `LoadAllDocuments`' loop |
| `RagIngest.LoadedDocsProvenance` | rag_ingest_multi.py:65-75 | every loaded document has as `source` an entry of the listing, and as `file_type` that entry's lower-cased extension, which is in the table |
| `RagIngest.LoadedDocsAppend` | rag_ingest_multi.py:65-75 | loading a concatenated listing gives the concatenation of the two parts' documents |
| `RagIngest.LoadedDocsOrder` | rag_ingest_multi.py:65-75 | an entry's documents sit between those of the entries before it and those after it, so the order is listing order, then loader order |
| `RagIngest.FailedFileContributesNothing` | rag_ingest_multi.py:67-82 | an entry that is skipped or whose loader raises gives no documents, and the entries after it are still loaded |
| `RagIngest.LoadAllDocuments` | rag_ingest_multi.py:63-83 | the result is `LoadedDocs` of the listing, and every document in it carries an accepted entry's provenance |
| `RagIngest.Dedup` | rag_ingest_multi.py:87-95 | the definition is the model of `unique_chunks`: each chunk whose stripped text has not occurred before it; `DedupKeys`, `DedupDistinct`, `DedupIsSubsequence`, `DedupKeepsFirstOccurrences`, `DedupOfDistinct`, `DedupIdempotent` and `DedupLength` characterise it |
| `RagIngest.FirstSeen` | rag_ingest_multi.py:88-93 | the definition is the model of the `seen` dictionary; `FirstSeenIsFirstMetadata` characterises it |
| `RagIngest.DedupKeys` | rag_ingest_multi.py:90-94 | every stripped text of the input occurs in the output, and no other text does |
| `RagIngest.DedupDistinct` | rag_ingest_multi.py:91-94 | no two kept chunks have equal stripped text |
| `RagIngest.DedupIsSubsequence` | rag_ingest_multi.py:87-95 | the kept chunks are the input's chunks, unmodified and unstripped, at strictly increasing positions; each is the first occurrence of its stripped text |
| `RagIngest.DedupKeepsFirstOccurrences` | rag_ingest_multi.py:92-94 | every first occurrence of a stripped text is kept |
| `RagIngest.DedupOfDistinct` | rag_ingest_multi.py:87-95 | input whose stripped texts are pairwise different is returned unchanged |
| `RagIngest.DedupIdempotent` | rag_ingest_multi.py:87-95 | deduplicating twice is the same as deduplicating once |
| `RagIngest.DedupLength` | rag_ingest_multi.py:87-95 | the output is at most as long as the input, and equally long exactly when all stripped texts are distinct |
| `RagIngest.FirstSeenIsFirstMetadata` | rag_ingest_multi.py:88-93 | the keys of `seen` are exactly the input's stripped texts, and each maps to its first occurrence's metadata, so later duplicates never overwrite it |
| `RagIngest.DeduplicateChunks` | rag_ingest_multi.py:87-95 | the loop returns `Dedup` of the chunks and leaves `seen` equal to `FirstSeen`; the result is duplicate-free and covers every stripped text |
| `RagQuery.Block` | rag_query.py:47 | the definition is the model of `f"---\n{doc.page_content.strip()}"`; `FormatDocsBlockAt` and `FormatDocsTextAt` locate it in the context |
| `RagQuery.Join` | rag_query.py:47 | the definition is the model of `"\n\n".join(...)`; `JoinPartAt`, `JoinSeparatorAfter` and `JoinPartOrder` characterise it |
| `RagQuery.JoinPartAt` | rag_query.py:47 | part i of a join is found at its start position, `PartStart` |
| `RagQuery.JoinSeparatorAfter` | rag_query.py:47 | right after part i of a join, when another part follows, comes the separator |
| `RagQuery.JoinPartOrder` | rag_query.py:47 | for i < j, part i and one separator end no later than part j starts |
| `RagQuery.FormatDocs` | rag_query.py:46-47 | the formatted context is empty exactly when there are no documents, and otherwise starts with `---\n` |
| `RagQuery.FormatDocsLength` | rag_query.py:47 | for n ≥ 1 documents the length is the sum of 4 + length of stripped text, plus 2·(n−1) |
| `RagQuery.FormatDocsBlockAt` | rag_query.py:47 | block i (`---\n` + stripped text of document i) appears at its start position |
| `RagQuery.FormatDocsTextAt` | rag_query.py:47 | after block i's delimiter line comes the stripped text of document i |
| `RagQuery.FormatDocsSeparatorAfter` | rag_query.py:47 | a blank line `\n\n` separates block i from block i+1 |
| `RagQuery.FormatDocsRankOrder` | rag_query.py:47 | for i < j, block i ends before block j starts, so retrieval rank order is kept |
| `RagQuery.InjectContext` | rag_query.py:51-59 | question and history are passed on unchanged; the context is empty exactly when nothing was retrieved |
| `RagQuery.InjectContextIgnoresHistory` | rag_query.py:52-54 | two inputs with the same question get the same context whatever their histories, so history is never used for retrieval |
| `RagQuery.InjectContextRanks` | rag_query.py:54-57 | the context holds the stripped text of the i-th retrieved document, and block i comes before block i+1 |
| `RagQuery.Mymemory.constructor` | rag_query.py:71-72 | a new history has no messages |
| `RagQuery.Mymemory.AddUserMessage` | rag_query.py:74-75 | appends exactly one human message with the given content; earlier messages are unchanged |
| `RagQuery.Mymemory.AddAiMessage` | rag_query.py:77-78 | appends exactly one AI message with the given content; earlier messages are unchanged |
| `RagQuery.Mymemory.AddMessage` | rag_query.py:80-81 | appends the given message itself; earlier messages are unchanged |
| `RagQuery.Mymemory.Clear` | rag_query.py:83-84 | leaves no messages, whatever was there before |
| `RagQuery.SessionHistory` | rag_query.py:88 | every history lookup, for any session id, returns a new and empty history |
| `RagQuery.RecordOneTurn` | rag_query.py:70-84 | a client of the history contracts: a user question followed by an AI answer is recorded as exactly those two messages, in that order, and `clear` then leaves no messages |
| `RagQuery.AsWrittenNextTurnHistory` | rag_query.py:88 | as written, after a question and its answer are recorded in a session's history, the next lookup of the same session sees no messages |
| `RagQuery.SessionStore.constructor` | rag_query.py:88 | the intended store starts with no sessions |
| `RagQuery.SessionStore.GetOrCreate` | rag_query.py:88 | the intended lookup returns the history already kept for a known id and changes nothing; for a new id it creates an empty history and keeps it under that id |
| `RagQuery.CorrectedNextTurnHistory` | rag_query.py:88 | with the intended lookup, the next turn of the same session sees the recorded question and answer, in order |
| `RagQuery.IsExitCommand` | rag_query.py:101 | the definition is the model of `question.strip().lower() == "exit"`; `ExitOnPaddedCommand`, `ExitCommandShape` and `ExitExamples` characterise it |
| `RagQuery.ExitOnPaddedCommand` | rag_query.py:101 | any letter case of `exit`, padded with whitespace, ends the loop |
| `RagQuery.ExitCommandShape` | rag_query.py:101 | any line that ends the loop is whitespace, then a letter-case variant of `exit`, then whitespace |
| `RagQuery.ExitExamples` | rag_query.py:101 | `"  EXIT "` ends the loop and `"exit now"` does not |

## Left out

- The document loaders (PDF, text, Word, HTML, CSV, SQLite) are library code. Each is a parameter `Loader`: a function from loader kind and path to documents or an error. Only the SQLite loader's default query is kept, as a constant.
- The directory listing is given as a sequence of names. `os.listdir` order and file-system access are not modelled.
- The text splitter is library code whose source is not part of this model. Its chunk size, overlap and natural-break behaviour are not modelled.
- Embeddings, the vector store, similarity search and the retriever's top-2 setting are not modelled. The retriever is a function parameter, and nothing bounds how many documents it returns. It is total: a vector-store failure would raise out of `inject_context` and end the chat loop, since neither rag_query.py:54 nor the loop at rag_query.py:104-107 catches it. A raising retriever is not modelled.
- The chat model, the streaming output, prompt template rendering and the output parser are not modelled: they are foreign calls and I/O.
- The wiring that reads and updates histories around the chain (`RunnableWithMessageHistory`) is library code. Only its factory is modelled (`SessionHistory`). One history per session id, kept for the life of the process, is evidently intended: the loop passes the same session id on every turn (rag_query.py:97, 104-107). The code's factory builds a new, empty history on every lookup, and the model follows the code (see Findings).
- Argument parsing, logging, the preview logging of the first three documents and the interactive input/print loop are I/O only. The source re-retrieval and the 500-character excerpt printing are not modelled either. The `preview` flag has no effect on the result, so `LoadAllDocuments` has no such parameter.
- Metadata values are strings here. Loaders may put other value types (page numbers, rows) into the metadata. These pass through stamping unchanged.
- `doc.metadata[...] = ...` changes each loaded document in place. The model stamps a local sequence of document values instead (`StampEach`). If two documents shared one metadata dictionary, the source would see both changes through either. The model does not capture that aliasing.
- `inject_context` reads its input as a dictionary. A missing key would raise, but the history wrapper always supplies both keys. The input is therefore a record with both fields.
- `PyText.LowerChar`/`PyText.Lower`: lower-cases ASCII letters only. Python's `str.lower` covers all of Unicode. The only non-ASCII characters that lower-case to ASCII letters are the Kelvin sign (to `k`) and the dotted capital I (to `i` followed by a combining dot, two characters). No table key and not `exit` can be produced that way, so accept/reject decisions are the same as Python's. This is argued here, not proved.
- `PosixPath.SplitExt`/`PosixPath.Join`: POSIX behaviour only. Windows drive letters and the `\` separator are not modelled.
- In-memory chat history is process-local. It is lost on restart, and concurrency does not arise (the program is single-threaded).

## Findings

| source | as written | input that shows it | evidently intended | confidence | as-written member | corrected member |
|---|---|---|---|---|---|---|
| rag_query.py:88 | the history factory `lambda session_id : Mymemory()` builds a new, empty history on every lookup, so the turn recorded after one question is gone when the next question's history is looked up | session `"my_rag_session"`: ask a question, record it and its answer, then ask again; the second question's prompt gets history `[]` | one history per session id, created empty on first lookup and returned on every later lookup, so later turns see the earlier ones | high, not executed | `RagQuery.AsWrittenNextTurnHistory` | `RagQuery.CorrectedNextTurnHistory` |
