/** Document ingestion for the knowledge base: uploads are saved to a scratch
    directory, the text files among them are loaded, chunked and added to the
    vector store, and the scratch files are removed again; retrieval hands
    back the top four matches.

    The scratch directory is a map from path to file text and the vector
    store a sequence of documents in insertion order; the text splitter is an
    input function and the similarity ranking an input sequence. */
module Ingestion {
  import opened Outcomes
  import opened PyStrings

  const UPLOAD_DIR := "./uploaded_docs"
  const RETRIEVAL_K := 4
  const NO_VALID_DOCS := "No valid text documents found."

  /** An uploaded file: the name the client gave it and its text. */
  datatype UploadFile = UploadFile(filename: string, content: string)

  /** A loaded document or chunk: its text and the path it came from. */
  datatype Document = Document(pageContent: string, source: string)

  /** The loader accepts a path that ends, case-sensitively, in one of these. */
  predicate IsTextPath(path: string) {
    EndsWith(path, ".md") || EndsWith(path, ".txt") || EndsWith(path, ".json")
  }

  /** `os.path.join(UPLOAD_DIR, file.filename)` */
  function ScratchPath(file: UploadFile): (path: string)
    ensures EndsWith(path, file.filename)
  {
    JoinPath(UPLOAD_DIR, file.filename)
  }

  /** Whether an upload is loaded is decided by its own file name alone. */
  lemma SelectionByFileName(file: UploadFile)
    ensures IsTextPath(ScratchPath(file)) <==> IsTextPath(file.filename)
  {
    EndsWithJoinPath(UPLOAD_DIR, file.filename, ".md");
    EndsWithJoinPath(UPLOAD_DIR, file.filename, ".txt");
    EndsWithJoinPath(UPLOAD_DIR, file.filename, ".json");
  }

  // ---------------------------------------------------------------- saving

  /** The paths the uploads are saved under, one per upload, in upload order. */
  function SavedPaths(files: seq<UploadFile>): (paths: seq<string>)
    ensures |paths| == |files|
    ensures forall i :: 0 <= i < |files| ==> paths[i] == ScratchPath(files[i])
  {
    if files == [] then []
    else SavedPaths(files[..|files| - 1]) + [ScratchPath(files[|files| - 1])]
  }

  function PathSet(paths: seq<string>): set<string> {
    set p | p in paths
  }

  /** The scratch directory after writing the uploads one after the other:
      every saved path is present, every other file is as it was. */
  function WriteAll(disk: map<string, string>, files: seq<UploadFile>): (written: map<string, string>)
    ensures written.Keys == disk.Keys + PathSet(SavedPaths(files))
    ensures forall p :: p in disk && p !in SavedPaths(files) ==> written[p] == disk[p]
  {
    if files == [] then disk
    else
      var last := files[|files| - 1];
      var before := WriteAll(disk, files[..|files| - 1]);
      assert SavedPaths(files) == SavedPaths(files[..|files| - 1]) + [ScratchPath(last)];
      before[ScratchPath(last) := last.content]
  }

  /** A saved path holds the content of the last upload saved under it: an
      upload with the same name as a later one is overwritten. */
  lemma {:induction false} WriteAllLastWins(disk: map<string, string>, files: seq<UploadFile>, i: nat)
    requires i < |files|
    requires forall j :: i < j < |files| ==> ScratchPath(files[j]) != ScratchPath(files[i])
    decreases |files|
    ensures WriteAll(disk, files)[ScratchPath(files[i])] == files[i].content
  {
    if i < |files| - 1 {
      var init := files[..|files| - 1];
      assert init[i] == files[i];
      forall j | i < j < |init| ensures ScratchPath(init[j]) != ScratchPath(init[i]) {
        assert init[j] == files[j];
      }
      WriteAllLastWins(disk, init, i);
    }
  }

  // ---------------------------------------------------------------- loading

  /** What the loaders yield for the saved paths: one document per text path,
      holding the text stored for that path, in path order; any other path is skipped. */
  function LoadTexts(disk: map<string, string>, paths: seq<string>): (docs: seq<Document>)
    requires forall p :: p in paths ==> p in disk
    ensures |docs| <= |paths|
  {
    if paths == [] then []
    else
      var last := paths[|paths| - 1];
      var init := paths[..|paths| - 1];
      assert paths == init + [last];
      LoadTexts(disk, init) + (if IsTextPath(last) then [Document(disk[last], last)] else [])
  }

  /** Every loaded document is a text path among `paths`, holding the text
      stored for that path. */
  lemma {:induction false} LoadedDocumentsAreTextFiles(disk: map<string, string>, paths: seq<string>)
    requires forall p :: p in paths ==> p in disk
    ensures forall d :: d in LoadTexts(disk, paths) ==>
              d.source in paths && IsTextPath(d.source) && d.pageContent == disk[d.source]
  {
    if paths != [] {
      var init := paths[..|paths| - 1];
      assert paths == init + [paths[|paths| - 1]];
      LoadedDocumentsAreTextFiles(disk, init);
    }
  }

  /** Nothing is loaded exactly when no path is a text path. */
  lemma {:induction false} LoadTextsEmptyIff(disk: map<string, string>, paths: seq<string>)
    requires forall p :: p in paths ==> p in disk
    ensures LoadTexts(disk, paths) == [] <==> forall p :: p in paths ==> !IsTextPath(p)
  {
    if paths != [] {
      var init := paths[..|paths| - 1];
      assert paths == init + [paths[|paths| - 1]];
      LoadTextsEmptyIff(disk, init);
    }
  }

  /** Loading keeps upload order: the documents of earlier paths come first. */
  lemma {:induction false} LoadTextsAppend(disk: map<string, string>, a: seq<string>, b: seq<string>)
    requires forall p :: p in a ==> p in disk
    requires forall p :: p in b ==> p in disk
    decreases |b|
    ensures LoadTexts(disk, a + b) == LoadTexts(disk, a) + LoadTexts(disk, b)
  {
    if b == [] {
      assert a + b == a;
    } else {
      var init, last := b[..|b| - 1], b[|b| - 1];
      var ab := a + b;
      assert ab[..|ab| - 1] == a + init;
      assert ab[|ab| - 1] == last;
      LoadTextsAppend(disk, a, init);
    }
  }

  /** Nothing is loaded exactly when no uploaded file name ends in ".md",
      ".txt" or ".json". */
  lemma NoValidDocsIff(disk: map<string, string>, files: seq<UploadFile>)
    ensures LoadTexts(WriteAll(disk, files), SavedPaths(files)) == []
            <==> forall i :: 0 <= i < |files| ==> !IsTextPath(files[i].filename)
  {
    var paths := SavedPaths(files);
    LoadTextsEmptyIff(WriteAll(disk, files), paths);
    forall i | 0 <= i < |files| ensures IsTextPath(paths[i]) <==> IsTextPath(files[i].filename) {
      SelectionByFileName(files[i]);
    }
    if LoadTexts(WriteAll(disk, files), paths) == [] {
      forall i | 0 <= i < |files| ensures !IsTextPath(files[i].filename) {
        assert paths[i] in paths;
      }
    }
  }

  // ---------------------------------------------------------------- status

  /** The status reported after a successful ingestion. */
  function SuccessMessage(chunks: nat, files: nat): (status: string)
    ensures status != NO_VALID_DOCS
  {
    var status := "Successfully processed " + NatToString(chunks) + " chunks from "
                  + NatToString(files) + " files.";
    assert status[0] == 'S';
    status
  }

  predicate AllDigits(s: string) {
    forall i :: 0 <= i < |s| ==> IsDigit(s[i])
  }

  lemma ConcatAt(a: string, r: string, k: nat)
    requires k < |a| + |r|
    ensures (a + r)[k] == if k < |a| then a[k] else r[k - |a|]
  {
  }

  lemma DropPrefix(h: string, x: string, y: string)
    requires h + x == h + y
    ensures x == y
  {
    assert x == (h + x)[|h|..];
    assert y == (h + y)[|h|..];
  }

  /** A run of digits followed by a non-digit is read back unambiguously. */
  lemma DigitRunUnique(a1: string, r1: string, a2: string, r2: string)
    requires AllDigits(a1) && AllDigits(a2)
    requires r1 != [] && !IsDigit(r1[0]) && r2 != [] && !IsDigit(r2[0])
    requires a1 + r1 == a2 + r2
    ensures a1 == a2 && r1 == r2
  {
    var s := a1 + r1;
    if |a1| < |a2| {
      ConcatAt(a1, r1, |a1|);
      assert false;
    }
    if |a2| < |a1| {
      ConcatAt(a2, r2, |a2|);
      assert false;
    }
    assert a1 == s[..|a1|] == a2;
    assert r1 == s[|a1|..] == r2;
  }

  lemma MessageShape(chunks: nat, files: nat)
    ensures SuccessMessage(chunks, files)
            == "Successfully processed " + (NatToString(chunks) + (" chunks from " + (NatToString(files) + " files.")))
  {
  }

  /** The status names both counts: different counts give different messages. */
  lemma SuccessMessageDeterminesCounts(c1: nat, f1: nat, c2: nat, f2: nat)
    requires SuccessMessage(c1, f1) == SuccessMessage(c2, f2)
    ensures c1 == c2 && f1 == f2
  {
    var head := "Successfully processed ";
    var mid := " chunks from ";
    var tail := " files.";
    var n1, n2 := NatToString(c1), NatToString(c2);
    var m1, m2 := NatToString(f1), NatToString(f2);
    MessageShape(c1, f1);
    MessageShape(c2, f2);
    DropPrefix(head, n1 + (mid + (m1 + tail)), n2 + (mid + (m2 + tail)));
    ConcatAt(mid, m1 + tail, 0);
    ConcatAt(mid, m2 + tail, 0);
    DigitRunUnique(n1, mid + (m1 + tail), n2, mid + (m2 + tail));
    DropPrefix(mid, m1 + tail, m2 + tail);
    DigitRunUnique(m1, tail, m2, tail);
    NatToStringInjective(c1, c2);
    NatToStringInjective(f1, f2);
  }

  // ---------------------------------------------------------------- retrieval

  /** The retriever's answer: the first `RETRIEVAL_K` documents of the
      similarity ranking, in ranking order, with no score threshold. */
  function Retrieve(ranked: seq<Document>): (top: seq<Document>)
    ensures |top| == if |ranked| < RETRIEVAL_K then |ranked| else RETRIEVAL_K
    ensures top == ranked[..|top|]
  {
    if |ranked| <= RETRIEVAL_K then ranked else ranked[..RETRIEVAL_K]
  }

  // ---------------------------------------------------------------- cleanup

  function FileNotFoundMessage(path: string): string {
    "[Errno 2] No such file or directory: '" + path + "'"
  }

  /** The cleanup loop as written: `os.remove` on every saved path in turn,
      raising FileNotFoundError at the first path that is no longer there. It
      completes exactly when the paths are all present and pairwise distinct. */
  function CleanupAsWritten(disk: map<string, string>, paths: seq<string>): (after: Attempt<map<string, string>>)
    decreases |paths|
    ensures after.Ok? <==> (forall i :: 0 <= i < |paths| ==> paths[i] in disk)
                           && (forall i, j :: 0 <= i < j < |paths| ==> paths[i] != paths[j])
    ensures after.Ok? ==> after.value == Cleanup(disk, paths)
  {
    if paths == [] then Ok(disk)
    else if paths[0] !in disk then Raised(FileNotFoundMessage(paths[0]))
    else
      var rest := CleanupAsWritten(disk - {paths[0]}, paths[1..]);
      assert forall i :: 1 <= i < |paths| ==> paths[i] == paths[1..][i - 1];
      if rest.Ok? then
        assert Cleanup(disk, paths) == Cleanup(disk - {paths[0]}, paths[1..]);
        rest
      else rest
  }

  /** Two uploads with the same file name are saved to the same path, so the
      cleanup as written removes that path twice and raises after the store
      has already been written. */
  lemma DuplicateUploadCleanupRaises(disk: map<string, string>, files: seq<UploadFile>, i: nat, j: nat)
    requires i < j < |files| && files[i].filename == files[j].filename
    ensures CleanupAsWritten(WriteAll(disk, files), SavedPaths(files)).Raised?
  {
    var paths := SavedPaths(files);
    assert paths[i] == paths[j];
  }

  /** Removing every saved path that is still present: the corrected cleanup,
      which leaves exactly the files that were not saved by this call. */
  function Cleanup(disk: map<string, string>, paths: seq<string>): (after: map<string, string>)
    ensures after.Keys == disk.Keys - PathSet(paths)
    ensures forall p :: p in after ==> after[p] == disk[p]
  {
    disk - PathSet(paths)
  }

  // ---------------------------------------------------------------- the knowledge base

  class KnowledgeBase {
    /** The scratch upload directory: path to file text. */
    var scratch: map<string, string>
    /** The persisted vector-store collection, in insertion order. */
    var collection: seq<Document>

    /** A knowledge base over the scratch directory and store found on disk. */
    constructor (scratch: map<string, string>, collection: seq<Document>)
      ensures this.scratch == scratch && this.collection == collection
    {
      this.scratch := scratch;
      this.collection := collection;
    }

    /** Remove every listed path that is present (the corrected cleanup). */
    method RemoveScratch(paths: seq<string>)
      modifies this
      ensures scratch == Cleanup(old(scratch), paths)
      ensures collection == old(collection)
    {
      var k := 0;
      while k < |paths|
        invariant 0 <= k <= |paths|
        invariant scratch == Cleanup(old(scratch), paths[..k])
        invariant collection == old(collection)
      {
        if paths[k] in scratch {
          scratch := scratch - {paths[k]};
        }
        assert PathSet(paths[..k + 1]) == PathSet(paths[..k]) + {paths[k]} by {
          assert paths[..k + 1] == paths[..k] + [paths[k]];
        }
        k := k + 1;
      }
      assert paths[..k] == paths;
    }

    /** Save every upload to the scratch directory, in upload order. */
    method SaveUploads(files: seq<UploadFile>) returns (savedPaths: seq<string>)
      modifies this
      ensures savedPaths == SavedPaths(files)
      ensures scratch == WriteAll(old(scratch), files)
      ensures collection == old(collection)
    {
      savedPaths := [];
      var i := 0;
      while i < |files|
        invariant 0 <= i <= |files|
        invariant savedPaths == SavedPaths(files[..i])
        invariant scratch == WriteAll(old(scratch), files[..i])
        invariant collection == old(collection)
      {
        var path := ScratchPath(files[i]);
        scratch := scratch[path := files[i].content];
        savedPaths := savedPaths + [path];
        assert files[..i + 1] == files[..i] + [files[i]];
        assert files[..i + 1][..i] == files[..i];
        i := i + 1;
      }
      assert files[..i] == files;
    }

    /** Load every saved text file as one document, skipping the others. */
    method LoadDocuments(paths: seq<string>) returns (documents: seq<Document>)
      requires forall p :: p in paths ==> p in scratch
      ensures documents == LoadTexts(scratch, paths)
    {
      documents := [];
      var j := 0;
      while j < |paths|
        invariant 0 <= j <= |paths|
        invariant documents == LoadTexts(scratch, paths[..j])
      {
        var path := paths[j];
        if IsTextPath(path) {
          documents := documents + [Document(scratch[path], path)];
        }
        assert paths[..j + 1][..j] == paths[..j];
        j := j + 1;
      }
      assert paths[..j] == paths;
    }

    /** `ingest_documents`: save every upload, load the text files, and either
        stop with `NO_VALID_DOCS` (store untouched, scratch files left behind)
        or add the chunks to the store, remove the scratch files and report the
        chunk count and the count of all uploads. */
    method IngestDocuments(sourceFiles: seq<UploadFile>, splitDocuments: seq<Document> -> seq<Document>)
      returns (status: string)
      modifies this
      ensures var written := WriteAll(old(scratch), sourceFiles);
              var docs := LoadTexts(written, SavedPaths(sourceFiles));
              if docs == [] then
                status == NO_VALID_DOCS && scratch == written && collection == old(collection)
              else
                var chunks := splitDocuments(docs);
                status == SuccessMessage(|chunks|, |sourceFiles|)
                && collection == old(collection) + chunks
                && scratch == Cleanup(written, SavedPaths(sourceFiles))
    {
      var savedPaths := SaveUploads(sourceFiles);
      var documents := LoadDocuments(savedPaths);
      if documents == [] {
        return NO_VALID_DOCS;
      }
      var chunks := splitDocuments(documents);
      collection := collection + chunks;
      RemoveScratch(savedPaths);
      status := SuccessMessage(|chunks|, |sourceFiles|);
    }
  }
}
