/**
 * The ingestion side's own logic (rag_ingest_multi.py): choosing a loader by
 * file extension, stamping provenance on every loaded document, skipping files
 * that cannot be loaded, and dropping chunks whose stripped text was already seen.
 */
module RagIngest {
  import opened PyText
  import PosixPath
  import opened Documents

  // ---------------------------------------------------------------------------
  // Extension dispatch (LOADER_MAP)
  // ---------------------------------------------------------------------------

  /** The six loader functions of the table; the database loader carries its query. */
  datatype LoaderKind =
    | PdfLoader
    | TextLoader
    | WordLoader
    | HtmlLoader
    | CsvLoader
    | SqliteLoader(query: string)

  /** The default query of the SQLite loader. */
  const DefaultSqliteQuery: string := "SELECT * FROM sqlite_master"

  /** The fixed table from lower-case extension to loader. */
  const LoaderMap: map<string, LoaderKind> := map[
    ".pdf" := PdfLoader,
    ".txt" := TextLoader,
    ".docx" := WordLoader,
    ".html" := HtmlLoader,
    ".csv" := CsvLoader,
    ".db" := SqliteLoader(DefaultSqliteQuery)
  ]

  /** A loader applied to a full path: the file's documents, or the error it raised. */
  type Loader = (LoaderKind, string) -> Result<seq<Document>>

  /** The extension of a directory entry, lower-cased: the key looked up in the table
      and the value stamped as `file_type`. */
  function FileType(filename: string): string {
    Lower(PosixPath.Ext(filename))
  }

  /** The six extensions the table accepts, and nothing else. */
  lemma RecognizedExtensions(ext: string)
    ensures ext in LoaderMap <==> ext in {".pdf", ".txt", ".docx", ".html", ".csv", ".db"}
  {
  }

  /** Matching is case-insensitive: a name whose last dot-suffix lower-cases to a
      table key is dispatched to that key's loader, whatever the case of the name. */
  lemma DispatchIgnoresCase(stem: string, suffix: string)
    requires '/' !in stem && '/' !in suffix && '.' !in suffix
    requires exists k :: 0 <= k < |stem| && stem[k] != '.'
    requires Lower("." + suffix) in LoaderMap
    ensures FileType(stem + "." + suffix) == Lower("." + suffix)
    ensures FileType(stem + "." + suffix) in LoaderMap
  {
    PosixPath.ExtOfDottedName(stem, suffix);
  }

  /** "REPORT.PDF" goes to the PDF loader. */
  lemma UpperCasePdfIsLoaded()
    ensures FileType("REPORT.PDF") == ".pdf"
    ensures LoaderMap[FileType("REPORT.PDF")] == PdfLoader
  {
    assert "REPORT" + "." + "PDF" == "REPORT.PDF";
    assert "REPORT"[0] != '.';
    PosixPath.ExtOfDottedName("REPORT", "PDF");
    assert "." + "PDF" == ".PDF";
    var l := Lower(".PDF");
    assert l[0] == '.' && l[1] == 'p' && l[2] == 'd' && l[3] == 'f';
    assert l == ".pdf";
  }

  /** `.pdf` and `..pdf` have no extension, so neither is loaded. */
  lemma HiddenPdfIsSkipped()
    ensures FileType(".pdf") == [] && FileType(".pdf") !in LoaderMap
    ensures FileType("..pdf") == [] && FileType("..pdf") !in LoaderMap
  {
    assert [] + "." + "pdf" == ".pdf";
    PosixPath.ExtOfHiddenName([], "pdf");
    assert "." + "." + "pdf" == "..pdf";
    PosixPath.ExtOfHiddenName(".", "pdf");
  }

  // ---------------------------------------------------------------------------
  // Loading and stamping (load_all_documents)
  // ---------------------------------------------------------------------------

  /** A document with `source` set to the file's name and `file_type` to its
      lower-cased extension; its text and every other metadata key are kept. */
  function Stamp(d: Document, filename: string, ext: string): (r: Document)
    ensures r.pageContent == d.pageContent
    ensures "source" in r.metadata && r.metadata["source"] == filename
    ensures "file_type" in r.metadata && r.metadata["file_type"] == ext
    ensures forall k :: k != "source" && k != "file_type" ==>
              (k in r.metadata <==> k in d.metadata) &&
              (k in d.metadata ==> r.metadata[k] == d.metadata[k])
  {
    d.(metadata := d.metadata["source" := filename]["file_type" := ext])
  }

  /** Every document of one file, stamped, in the loader's order. */
  function StampAll(docs: seq<Document>, filename: string, ext: string): seq<Document> {
    seq(|docs|, i requires 0 <= i < |docs| => Stamp(docs[i], filename, ext))
  }

  /** What one directory entry contributes: nothing when its extension is not in the
      table or when its loader raises, otherwise its loaded documents, stamped. */
  function FileDocs(folder: string, filename: string, load: Loader): seq<Document> {
    var ext := FileType(filename);
    if ext !in LoaderMap then []
    else
      match load(LoaderMap[ext], PosixPath.Join(folder, filename))
      case Err(_) => []
      case Ok(docs) => StampAll(docs, filename, ext)
  }

  /** The concatenation, in listing order, of what each entry contributes. */
  function Gather(listing: seq<string>, contribution: string -> seq<Document>): seq<Document> {
    if listing == [] then []
    else Gather(listing[..|listing| - 1], contribution) + contribution(listing[|listing| - 1])
  }

  /** Gathering a listing is gathering its parts one after the other. */
  lemma {:induction false} GatherAppend(a: seq<string>, b: seq<string>, contribution: string -> seq<Document>)
    ensures Gather(a + b, contribution) == Gather(a, contribution) + Gather(b, contribution)
  {
    if b == [] {
      assert a + b == a;
    } else {
      var b' := b[..|b| - 1];
      assert (a + b)[..|a + b| - 1] == a + b';
      assert (a + b)[|a + b| - 1] == b[|b| - 1];
      GatherAppend(a, b', contribution);
    }
  }

  /** What one entry of a folder contributes, as a function of the entry's name. */
  function Contribution(folder: string, load: Loader): string -> seq<Document> {
    filename => FileDocs(folder, filename, load)
  }

  /** What the whole listing contributes, entry after entry. */
  function LoadedDocs(folder: string, listing: seq<string>, load: Loader): seq<Document> {
    Gather(listing, Contribution(folder, load))
  }

  /** A document carries the provenance of an entry of the listing that the table
      accepts: its `source` is that entry and its `file_type` is the entry's
      lower-cased extension. */
  predicate HasProvenance(d: Document, listing: seq<string>) {
    && "source" in d.metadata
    && "file_type" in d.metadata
    && d.metadata["source"] in listing
    && d.metadata["file_type"] == FileType(d.metadata["source"])
    && d.metadata["file_type"] in LoaderMap
  }

  /** An entry whose extension is not in the table is never handed to a loader:
      what it contributes does not depend on the loader, and is nothing. */
  lemma SkippedFileIgnoresLoader(folder: string, filename: string, load1: Loader, load2: Loader)
    requires FileType(filename) !in LoaderMap
    ensures FileDocs(folder, filename, load1) == FileDocs(folder, filename, load2) == []
  {
  }

  /** An entry whose extension is in the table is handed to that extension's loader
      with the joined path: an error gives nothing, otherwise every returned
      document, in order, stamped with the entry's name and file type. */
  lemma RecognizedFileGivesLoaderDocuments(folder: string, filename: string, load: Loader)
    requires FileType(filename) in LoaderMap
    ensures var ext := FileType(filename);
            var loaded := load(LoaderMap[ext], PosixPath.Join(folder, filename));
            var got := FileDocs(folder, filename, load);
            (loaded.Err? ==> got == []) &&
            (loaded.Ok? ==>
               |got| == |loaded.value| &&
               forall i :: 0 <= i < |got| ==> got[i] == Stamp(loaded.value[i], filename, ext))
  {
  }

  /** Every document a file contributes has that file's provenance, and keeps the
      text the loader gave it. */
  lemma FileDocsProvenance(folder: string, filename: string, load: Loader)
    ensures forall d :: d in FileDocs(folder, filename, load) ==> HasProvenance(d, [filename])
  {
    var ext := FileType(filename);
    if ext in LoaderMap {
      match load(LoaderMap[ext], PosixPath.Join(folder, filename))
      case Err(_) =>
      case Ok(docs) =>
        forall d | d in StampAll(docs, filename, ext)
          ensures HasProvenance(d, [filename])
        {
          var i :| 0 <= i < |docs| && d == Stamp(docs[i], filename, ext);
        }
    }
  }

  /** Every loaded document carries the provenance of an accepted entry of the listing. */
  lemma {:induction false} LoadedDocsProvenance(folder: string, listing: seq<string>, load: Loader)
    ensures forall d :: d in LoadedDocs(folder, listing, load) ==> HasProvenance(d, listing)
  {
    if listing != [] {
      var init, last := listing[..|listing| - 1], listing[|listing| - 1];
      LoadedDocsProvenance(folder, init, load);
      FileDocsProvenance(folder, last, load);
      forall d | d in LoadedDocs(folder, listing, load)
        ensures HasProvenance(d, listing)
      {
        if d in LoadedDocs(folder, init, load) {
          assert HasProvenance(d, init);
          assert d.metadata["source"] in init;
        } else {
          assert d in FileDocs(folder, last, load);
          assert HasProvenance(d, [last]);
        }
      }
    }
  }

  /** Loading one more entry appends what that entry contributes. */
  lemma LoadedDocsSnoc(folder: string, listing: seq<string>, filename: string, load: Loader)
    ensures LoadedDocs(folder, listing + [filename], load)
         == LoadedDocs(folder, listing, load) + FileDocs(folder, filename, load)
  {
    var l := listing + [filename];
    assert l[..|l| - 1] == listing;
    assert l[|l| - 1] == filename;
    assert Contribution(folder, load)(filename) == FileDocs(folder, filename, load);
  }

  /** Loading a listing is loading its parts one after the other. */
  lemma LoadedDocsAppend(folder: string, a: seq<string>, b: seq<string>, load: Loader)
    ensures LoadedDocs(folder, a + b, load) == LoadedDocs(folder, a, load) + LoadedDocs(folder, b, load)
  {
    GatherAppend(a, b, Contribution(folder, load));
  }

  /** The documents come in listing order, and each file's documents in its
      loader's order: one entry's contribution sits between those of the entries
      before it and after it. */
  lemma LoadedDocsOrder(folder: string, before: seq<string>, filename: string, after: seq<string>, load: Loader)
    ensures LoadedDocs(folder, before + [filename] + after, load)
         == LoadedDocs(folder, before, load) + FileDocs(folder, filename, load) + LoadedDocs(folder, after, load)
  {
    LoadedDocsAppend(folder, before + [filename], after, load);
    LoadedDocsAppend(folder, before, [filename], load);
    assert [filename][..0] == [];
  }

  /** An entry that is skipped or whose loader raises contributes nothing, and the
      entries after it are still loaded. */
  lemma FailedFileContributesNothing(folder: string, before: seq<string>, filename: string, after: seq<string>, load: Loader)
    requires FileType(filename) !in LoaderMap || load(LoaderMap[FileType(filename)], PosixPath.Join(folder, filename)).Err?
    ensures LoadedDocs(folder, before + [filename] + after, load)
         == LoadedDocs(folder, before, load) + LoadedDocs(folder, after, load)
  {
    LoadedDocsOrder(folder, before, filename, after, load);
    assert FileDocs(folder, filename, load) == [];
  }

  /** The stamping loop of `load_all_documents`: set `source` and `file_type` on
      each document of one file, in place, one document at a time. */
  method StampEach(loaded: seq<Document>, filename: string, ext: string) returns (docs: seq<Document>)
    ensures docs == StampAll(loaded, filename, ext)
  {
    docs := loaded;
    for j := 0 to |docs|
      invariant |docs| == |loaded|
      invariant forall k :: 0 <= k < j ==> docs[k] == Stamp(loaded[k], filename, ext)
      invariant forall k :: j <= k < |docs| ==> docs[k] == loaded[k]
    {
      docs := docs[j := docs[j].(metadata := docs[j].metadata["source" := filename]["file_type" := ext])];
    }
  }

  /** `load_all_documents`: for each entry of the listing, in order, look up its
      lower-cased extension; when the table has it, call the loader on the joined
      path, stamp `source` and `file_type` on each returned document and append
      them; a loader error is logged and the entry contributes nothing. */
  method LoadAllDocuments(folderPath: string, listing: seq<string>, load: Loader) returns (allDocs: seq<Document>)
    ensures allDocs == LoadedDocs(folderPath, listing, load)
    ensures forall d :: d in allDocs ==> HasProvenance(d, listing)
  {
    allDocs := [];
    for i := 0 to |listing|
      invariant allDocs == LoadedDocs(folderPath, listing[..i], load)
    {
      var filename := listing[i];
      var ext := Lower(PosixPath.SplitExt(filename).1);
      assert listing[..i + 1] == listing[..i] + [filename];
      LoadedDocsSnoc(folderPath, listing[..i], filename, load);
      assert ext == FileType(filename);
      if ext in LoaderMap {
        var fullPath := PosixPath.Join(folderPath, filename);
        var loaded := load(LoaderMap[ext], fullPath);
        if loaded.Ok? {
          var docs := StampEach(loaded.value, filename, ext);
          allDocs := allDocs + docs;
        }
      }
    }
    assert listing[..|listing|] == listing;
    LoadedDocsProvenance(folderPath, listing, load);
  }

  // ---------------------------------------------------------------------------
  // Deduplication (deduplicate_chunks)
  // ---------------------------------------------------------------------------

  /** The dictionary key of a chunk: its text with surrounding whitespace stripped. */
  function Key(d: Document): string {
    Strip(d.pageContent)
  }

  /** The stripped texts occurring in a sequence of chunks. */
  function Keys(s: seq<Document>): set<string> {
    set i | 0 <= i < |s| :: Key(s[i])
  }

  /** Chunk `i` is the first with its stripped text. */
  predicate IsFirstOccurrence(s: seq<Document>, i: int)
    requires 0 <= i < |s|
  {
    Key(s[i]) !in Keys(s[..i])
  }

  /** No two chunks have the same stripped text. */
  predicate Distinct(s: seq<Document>) {
    forall i, j :: 0 <= i < j < |s| ==> Key(s[i]) != Key(s[j])
  }

  /** The chunks kept: each chunk whose stripped text has not occurred before it. */
  function Dedup(s: seq<Document>): seq<Document> {
    if s == [] then []
    else if IsFirstOccurrence(s, |s| - 1) then Dedup(s[..|s| - 1]) + [s[|s| - 1]]
    else Dedup(s[..|s| - 1])
  }

  /** The positions of the chunks kept, in increasing order. */
  function FirstIndices(s: seq<Document>): seq<nat> {
    if s == [] then []
    else if IsFirstOccurrence(s, |s| - 1) then FirstIndices(s[..|s| - 1]) + [|s| - 1]
    else FirstIndices(s[..|s| - 1])
  }

  /** The `seen` dictionary after the chunks `s`: each stripped text mapped to the
      metadata of the chunk that first had it. */
  function FirstSeen(s: seq<Document>): map<string, Metadata> {
    if s == [] then map[]
    else
      var m := FirstSeen(s[..|s| - 1]);
      var c := s[|s| - 1];
      if Key(c) in m then m else m[Key(c) := c.metadata]
  }

  lemma KeysSnoc(s: seq<Document>, d: Document)
    ensures Keys(s + [d]) == Keys(s) + {Key(d)}
  {
    var t := s + [d];
    assert forall i :: 0 <= i < |s| ==> t[i] == s[i];
    assert t[|s|] == d;
    forall k | k in Keys(t) ensures k in Keys(s) + {Key(d)} {
      var i :| 0 <= i < |t| && k == Key(t[i]);
      if i < |s| {
        assert k == Key(s[i]);
      }
    }
    forall k | k in Keys(s) ensures k in Keys(t) {
      var i :| 0 <= i < |s| && k == Key(s[i]);
      assert k == Key(t[i]);
    }
  }

  /** Splitting a sequence into its last chunk and the rest. */
  lemma KeysOfInit(s: seq<Document>)
    requires s != []
    ensures Keys(s) == Keys(s[..|s| - 1]) + {Key(s[|s| - 1])}
  {
    assert s == s[..|s| - 1] + [s[|s| - 1]];
    KeysSnoc(s[..|s| - 1], s[|s| - 1]);
  }

  /** A prefix sees the same first occurrences as the whole sequence. */
  lemma FirstOccurrenceOfPrefix(s: seq<Document>, n: int, i: int)
    requires 0 <= i < n <= |s|
    ensures IsFirstOccurrence(s[..n], i) == IsFirstOccurrence(s, i)
  {
    assert s[..n][..i] == s[..i];
  }

  /** Every stripped text of the input is represented in the output, and the output
      has no text the input lacks. */
  lemma {:induction false} DedupKeys(s: seq<Document>)
    ensures Keys(Dedup(s)) == Keys(s)
  {
    if s != [] {
      var p, c := s[..|s| - 1], s[|s| - 1];
      DedupKeys(p);
      KeysOfInit(s);
      assert s[..|s| - 1] == p;
      if IsFirstOccurrence(s, |s| - 1) {
        KeysSnoc(Dedup(p), c);
      }
    }
  }

  /** No two kept chunks have the same stripped text. */
  lemma {:induction false} DedupDistinct(s: seq<Document>)
    ensures Distinct(Dedup(s))
  {
    if s != [] {
      var p, c := s[..|s| - 1], s[|s| - 1];
      DedupDistinct(p);
      if IsFirstOccurrence(s, |s| - 1) {
        DedupKeys(p);
        var r := Dedup(p) + [c];
        forall i, j | 0 <= i < j < |r| ensures Key(r[i]) != Key(r[j]) {
          if j == |r| - 1 {
            assert Key(r[i]) in Keys(Dedup(p));
          } else {
            assert r[i] == Dedup(p)[i] && r[j] == Dedup(p)[j];
          }
        }
      }
    }
  }

  /** The output is a subsequence of the input in its original order: the kept chunks
      are the input's chunks at strictly increasing positions, unmodified (their text
      is not stripped), and each sits at the first occurrence of its stripped text. */
  lemma {:induction false} DedupIsSubsequence(s: seq<Document>)
    ensures |FirstIndices(s)| == |Dedup(s)|
    ensures forall k :: 0 <= k < |FirstIndices(s)| ==>
              FirstIndices(s)[k] < |s| && Dedup(s)[k] == s[FirstIndices(s)[k]] &&
              IsFirstOccurrence(s, FirstIndices(s)[k])
    ensures forall k1, k2 :: 0 <= k1 < k2 < |FirstIndices(s)| ==> FirstIndices(s)[k1] < FirstIndices(s)[k2]
  {
    if s != [] {
      var p := s[..|s| - 1];
      DedupIsSubsequence(p);
      var ix := FirstIndices(p);
      forall k | 0 <= k < |ix| ensures IsFirstOccurrence(s, ix[k]) {
        FirstOccurrenceOfPrefix(s, |s| - 1, ix[k]);
      }
    }
  }

  /** Every first occurrence is kept. */
  lemma {:induction false} DedupKeepsFirstOccurrences(s: seq<Document>)
    ensures forall i :: 0 <= i < |s| && IsFirstOccurrence(s, i) ==> i in FirstIndices(s)
  {
    if s != [] {
      var p := s[..|s| - 1];
      DedupKeepsFirstOccurrences(p);
      forall i | 0 <= i < |s| - 1 && IsFirstOccurrence(s, i) ensures i in FirstIndices(s) {
        FirstOccurrenceOfPrefix(s, |s| - 1, i);
        assert i in FirstIndices(p);
      }
    }
  }

  /** Chunks with pairwise different stripped texts are all kept. */
  lemma {:induction false} DedupOfDistinct(s: seq<Document>)
    requires Distinct(s)
    ensures Dedup(s) == s
  {
    if s != [] {
      var p, c := s[..|s| - 1], s[|s| - 1];
      forall i, j | 0 <= i < j < |p| ensures Key(p[i]) != Key(p[j]) {
        assert p[i] == s[i] && p[j] == s[j];
      }
      DedupOfDistinct(p);
      forall i | 0 <= i < |p| ensures Key(p[i]) != Key(c) {
        assert p[i] == s[i];
      }
      assert IsFirstOccurrence(s, |s| - 1);
      assert s == p + [c];
    }
  }

  /** Deduplicating an already deduplicated sequence changes nothing. */
  lemma DedupIdempotent(s: seq<Document>)
    ensures Dedup(Dedup(s)) == Dedup(s)
  {
    DedupDistinct(s);
    DedupOfDistinct(Dedup(s));
  }

  /** The output is no longer than the input, and exactly as long when all stripped
      texts are distinct. */
  lemma {:induction false} DedupLength(s: seq<Document>)
    ensures |Dedup(s)| <= |s|
    ensures |Dedup(s)| == |s| <==> Distinct(s)
  {
    if s != [] {
      var p, c := s[..|s| - 1], s[|s| - 1];
      DedupLength(p);
      if Distinct(s) {
        DedupOfDistinct(s);
      }
      if |Dedup(s)| == |s| {
        assert IsFirstOccurrence(s, |s| - 1);
        assert Distinct(p);
        forall i, j | 0 <= i < j < |s| ensures Key(s[i]) != Key(s[j]) {
          if j == |s| - 1 {
            assert Key(p[i]) in Keys(p);
          } else {
            assert s[i] == p[i] && s[j] == p[j];
          }
        }
      }
    }
  }

  /** The `seen` dictionary has exactly the stripped texts of the input as keys, and
      maps each to the metadata of its first occurrence: later duplicates never
      overwrite it. */
  lemma {:induction false} FirstSeenIsFirstMetadata(s: seq<Document>)
    ensures FirstSeen(s).Keys == Keys(s)
    ensures forall i :: 0 <= i < |s| && IsFirstOccurrence(s, i) ==>
              FirstSeen(s)[Key(s[i])] == s[i].metadata
  {
    if s != [] {
      var p, c := s[..|s| - 1], s[|s| - 1];
      FirstSeenIsFirstMetadata(p);
      KeysOfInit(s);
      forall i | 0 <= i < |s| && IsFirstOccurrence(s, i)
        ensures FirstSeen(s)[Key(s[i])] == s[i].metadata
      {
        if i < |s| - 1 {
          FirstOccurrenceOfPrefix(s, |s| - 1, i);
          assert s[i] == p[i];
          assert Key(p[i]) in Keys(p);
          if Key(c) !in Keys(p) {
            assert Key(c) != Key(p[i]);
          }
        } else {
          assert s[..i] == p;
        }
      }
    }
  }

  /** `deduplicate_chunks`: keep a chunk when its stripped text is not yet a key of
      `seen`, recording the chunk's metadata under that key. Also yields the final
      `seen` dictionary as a ghost result. */
  method DeduplicateChunks(chunks: seq<Document>) returns (uniqueChunks: seq<Document>, ghost seen: map<string, Metadata>)
    ensures uniqueChunks == Dedup(chunks)
    ensures seen == FirstSeen(chunks)
    ensures Distinct(uniqueChunks) && Keys(uniqueChunks) == Keys(chunks)
  {
    var seenMap: map<string, Metadata> := map[];
    uniqueChunks := [];
    for i := 0 to |chunks|
      invariant uniqueChunks == Dedup(chunks[..i])
      invariant seenMap == FirstSeen(chunks[..i])
      invariant seenMap.Keys == Keys(chunks[..i])
    {
      var chunk := chunks[i];
      var content := Strip(chunk.pageContent);
      assert chunks[..i + 1][..i] == chunks[..i];
      KeysOfInit(chunks[..i + 1]);
      if content !in seenMap {
        seenMap := seenMap[content := chunk.metadata];
        uniqueChunks := uniqueChunks + [chunk];
      }
    }
    assert chunks[..|chunks|] == chunks;
    seen := seenMap;
    DedupDistinct(chunks);
    DedupKeys(chunks);
  }
}
