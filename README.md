# QA agent backend: text handling and ingestion, in Dafny

This project models the deterministic core of a small QA-automation backend.
The backend has three parts:

- the **knowledge base** (`ingestion.py`) saves uploaded documentation files to
  a scratch directory, loads the `.md`, `.txt` and `.json` ones, chunks them
  into a vector store and removes the scratch files; its retriever returns the
  top four matches for a query;
- the **test-generation agent** (`rag_agent.py`) joins the retrieved text into a
  context, refuses an empty context, asks a chat model for a JSON list of test
  cases, cuts the JSON out of a Markdown fence if the model added one, parses
  it, and turns every failure into an error dictionary;
- the **script agent** (`selenium_agent.py`) asks the chat model for a Selenium
  script for one test case, removes every Markdown fence marker from the
  reply and returns it as `{"script": ...}`, or `{"error": ...}` when the call
  raises.

The chat model, the JSON parser, the text splitter and the similarity search
are inputs to the model. The model is a function from the prompt's variables
to either a reply or the message of the exception raised. The parser is a
function from text to a value or an exception message. The splitter is a
function from documents to chunks. The search is a ranking of stored
documents, or the message of the exception it raised.

Files:

- `outcomes.dfy` holds `Option`, and `Attempt`, which is a Python value or a
  raised exception's `str(e)`.
- `pystrings.dfy` holds the Python `str` operations the code relies on, over
  `seq<char>`, with CPython's semantics:
  - `isspace` and `strip`;
  - `find` and `in`;
  - `split` and `join`;
  - `replace` (leftmost, non-overlapping);
  - `endswith`;
  - POSIX `os.path.join`;
  - `str(n)` for a natural number.
- `fences.dfy` proves that removing every "```" leaves none. The proof matters
  because a removal could join backticks from both sides of a removed marker.
- `selenium_agent.dfy`, `rag_agent.dfy` and `ingestion.dfy` model the three
  components. The knowledge base is a class:
  - `scratch` maps each path in the scratch directory to its text;
  - `collection` is the persisted vector-store collection, in insertion order;
  - its methods carry the loops of `ingest_documents`.

Three behaviours of the code that are easy to miss:

- Every upload is saved to the scratch directory, including files that are
  then skipped. Only the text files are loaded.
- The status message counts all submitted files, including the skipped ones.
- The script cleaner removes "```python" and "```" everywhere in the reply,
  not only at its ends.

## Model

Several functions have no contract of their own and are covered by the lemma
rows: `RagAgent.BuildContext` (rag_agent.py:32) by `ContextEmptyIff` and
`ContextAppend`; `PyStrings.Join` by `JoinEmptyIff`, `JoinAppend` and
`SplitJoinRoundTrip`; `PyStrings.Replace` by `ReplaceIsJoinOfSplit`,
`ReplaceAbsent` and `Fences.RemoveFences`; `Ingestion.IsTextPath`
(ingestion.py:44) by `SelectionByFileName`, `LoadTextsEmptyIff` and
`NoValidDocsIff`; `RagAgent.NoDocsReply` and `RagAgent.InternalError`
(rag_agent.py:35, 78) by `GenerateTests`, `NoDocsIff` and
`FailuresAreInternalErrors`.

| member | source | states |
|---|---|---|
| `PyStrings.Strip` | rag_agent.py:66 | `strip()` returns the slice of the text left after cutting whitespace (CPython's `isspace` set) off both ends; neither end of the result is whitespace |
| `PyStrings.StripUnique` | rag_agent.py:66 | any whitespace-framed slice whose ends are not whitespace is the result of `strip()`, so the two properties define it |
| `PyStrings.StripIdempotent` | selenium_agent.py:55 | stripping twice gives the same text as stripping once |
| `PyStrings.Find` | rag_agent.py:67 | `find` gives the leftmost occurrence, and none exactly when `pat in s` is false |
| `PyStrings.Split` | rag_agent.py:68 | `split(sep)` has at least one piece, at least two exactly when `sep` occurs, and no piece contains `sep` |
| `PyStrings.Before` | rag_agent.py:68 | `split(sep)[0]` is the prefix before the first `sep`, or the whole text when `sep` is absent |
| `PyStrings.After` | rag_agent.py:68 | the suffix after the first `sep`; no earlier occurrence exists |
| `PyStrings.SplitSecond` | rag_agent.py:68 | `split(sep)[1]` is the text between the first `sep` and the next one, or the rest of the text |
| `PyStrings.SplitJoinRoundTrip` | rag_agent.py:68 | `sep.join(s.split(sep)) == s` |
| `PyStrings.JoinEmptyIff` | rag_agent.py:32 | a join with a non-empty separator is empty exactly for no parts, or for one empty part |
| `PyStrings.JoinAppend` | rag_agent.py:32 | joining keeps part order: one more part goes at the end, after one separator |
| `PyStrings.ReplaceIsJoinOfSplit` | selenium_agent.py:55 | `s.replace(pat, rep) == rep.join(s.split(pat))` |
| `PyStrings.ReplaceAbsent` | selenium_agent.py:55 | text without the pattern comes out of `replace` unchanged |
| `PyStrings.JoinPath` | ingestion.py:36 | `os.path.join(dir, name)` ends with `name` |
| `PyStrings.EndsWithJoinPath` | ingestion.py:36-44 | for a suffix without '/', the joined path ends with it exactly when the file name does |
| `PyStrings.NatToString` | ingestion.py:73 | `str(n)` is non-empty, all decimal digits, and starts with '0' only for 0 |
| `PyStrings.NatToStringRoundTrip` | ingestion.py:73 | reading the digits of `str(n)` back gives `n` |
| `Fences.RemoveFences` | selenium_agent.py:55 | after `replace("```", "")` no "```" is left anywhere; a run of fewer than three leading backticks is kept as it is |
| `Fences.NoFenceAfterRemoval` | selenium_agent.py:55 | removing every "```" leaves no "```" |
| `SeleniumAgent.CleanScript` | selenium_agent.py:55 | the cleaned script contains no "```" anywhere, and neither of its ends is whitespace |
| `SeleniumAgent.CleanScriptUnfenced` | selenium_agent.py:55 | a reply without "```" is only trimmed |
| `SeleniumAgent.CleanScriptIdempotent` | selenium_agent.py:55 | cleaning a cleaned script changes nothing |
| `SeleniumAgent.CleanScriptFencedBlock` | selenium_agent.py:55 | a reply that is "```python", any body without "```" and "```" cleans to the trimmed body: the "python" tag does not survive, and backticks the body ends with do |
| `SeleniumAgent.GenerateScript` | selenium_agent.py:49-59 | the reply is `{"script": ...}` holding the cleaned, fence-free reply, or `{"error": str(e)}` exactly when the model call raised |
| `SeleniumAgent.TestCaseSeenAsText` | selenium_agent.py:50 | two test cases with the same string form get the same reply |
| `RagAgent.PageContents` | rag_agent.py:32 | one page content per retrieved document, in retrieval order |
| `RagAgent.ContextEmptyIff` | rag_agent.py:32-34 | the context is empty exactly when nothing was retrieved, or one document with empty text was |
| `RagAgent.ContextAppend` | rag_agent.py:32 | the context is the page contents in retrieval order with "\n\n" between them |
| `RagAgent.ExtractPayload` | rag_agent.py:66-70 | the text passed to the JSON parser never contains "```" |
| `RagAgent.ExtractUnfenced` | rag_agent.py:66-70 | a reply without "```" reaches the parser only trimmed |
| `RagAgent.BeforeJsonThenFence` | rag_agent.py:68 | cutting at the first "```json" and then at "```" is cutting at the first "```", unless the "```json" starts inside that "```" |
| `RagAgent.ExtractJsonFence` | rag_agent.py:66-68 | with "```json" present, the payload is the trimmed text between it and the next "```", or everything after it when no "```" follows; it applies even when a plain "```" comes earlier |
| `RagAgent.ExtractGenericFence` | rag_agent.py:66-70 | without "```json", the payload is the trimmed text between the first two "```", or everything after a lone "```" |
| `RagAgent.GenerateTests` | rag_agent.py:24-78 | every reply is tagged as the parsed value or as one of the agent's own error dictionaries, and those dictionaries have one of the two fixed shapes; the reply is a parsed value exactly when retrieval, the model call on a non-empty context and the parse of the extracted reply all succeed, and it is then what the parser returned |
| `RagAgent.NoDocsIff` | rag_agent.py:27-35 | the early return with "No relevant documentation found" is taken exactly when retrieval returned nothing, or one document with empty text |
| `RagAgent.EmptyContextSkipsModel` | rag_agent.py:34-35 | with an empty context the reply does not depend on the model or the parser, so neither is consulted |
| `RagAgent.FailuresAreInternalErrors` | rag_agent.py:27-78 | an exception in retrieval, the model call or parsing gives `{"error": "Internal Server Error", "details": str(e)}` with that exception's message |
| `Ingestion.ScratchPath` | ingestion.py:36 | an upload's scratch path ends with its file name |
| `Ingestion.SelectionByFileName` | ingestion.py:36-44 | a saved upload is loaded exactly when its own file name ends in ".md", ".txt" or ".json" (case-sensitive) |
| `Ingestion.SavedPaths` | ingestion.py:34-39 | one saved path per upload, in upload order, whatever its extension |
| `Ingestion.WriteAll` | ingestion.py:35-39 | after saving, every saved path is on disk and every other file is unchanged |
| `Ingestion.WriteAllLastWins` | ingestion.py:36-38 | a saved path holds the content of the last upload saved under it |
| `Ingestion.LoadTexts` | ingestion.py:43-46 | loading yields at most one document per saved path |
| `Ingestion.LoadedDocumentsAreTextFiles` | ingestion.py:43-46 | every loaded document comes from a text path among the saved ones and holds the text stored for that path, unchanged (decoding and newline translation are not modelled) |
| `Ingestion.LoadTextsEmptyIff` | ingestion.py:43-49 | nothing is loaded exactly when no saved path ends in ".md", ".txt" or ".json" |
| `Ingestion.LoadTextsAppend` | ingestion.py:43-46 | loaded documents keep the order of the saved paths |
| `Ingestion.NoValidDocsIff` | ingestion.py:35-50 | the "No valid text documents found." outcome comes exactly when no uploaded file name has a text extension, including when there are no uploads |
| `Ingestion.SuccessMessage` | ingestion.py:73 | the success status is never the "no valid documents" status |
| `Ingestion.SuccessMessageDeterminesCounts` | ingestion.py:73 | the success status determines both the chunk count and the file count |
| `Ingestion.Retrieve` | ingestion.py:78 | the retriever returns the first four results of the ranking, or all of them when there are fewer, with no threshold |
| `Ingestion.CleanupAsWritten` | ingestion.py:70-71 | the cleanup loop as written completes exactly when every saved path is present and no path repeats; it then removes exactly the saved paths |
| `Ingestion.DuplicateUploadCleanupRaises` | ingestion.py:35-71 | two uploads with the same file name make the cleanup as written raise; `IngestDocuments` runs the cleanup after the store was written |
| `Ingestion.Cleanup` | ingestion.py:70-71 | the corrected cleanup leaves exactly the files that were not saved by this call, with their contents |
| `Ingestion.KnowledgeBase.SaveUploads` | ingestion.py:34-39 | the save loop writes every upload in order and returns the saved paths; the store is untouched |
| `Ingestion.KnowledgeBase.LoadDocuments` | ingestion.py:43-46 | the load loop returns the documents of the text paths in order |
| `Ingestion.KnowledgeBase.RemoveScratch` | ingestion.py:70-71 | the corrected cleanup loop removes every saved path still present and nothing else |
| `Ingestion.KnowledgeBase.IngestDocuments` | ingestion.py:23-73 | with nothing loaded: the status is "No valid text documents found.", the store is unchanged and the scratch files stay; otherwise the chunks are appended to the store, the scratch files are removed, and the status reports the chunk count and the count of all uploads |

## Left out

- The chat-model calls are inputs. This covers `ChatGroq`, its settings, the prompt templates and `chain.invoke`. The rule they follow is not modelled.
- The API-key check in the agent constructors is not modelled.
- `json.loads` is an input function from text to a value or an exception message.
- `str(test_case)` is an input function: Python's `repr` of a dict is not modelled.
- The text splitter is an input function. Its chunk size (1000), overlap (200) and separators are not modelled, so the chunk count is whatever it returns.
- The embedding model is not modelled.
- Chroma's persistence is modelled as appending the chunks to the collection. Its own failures are not modelled, for example when it is given no chunks.
- The similarity ranking behind the retriever is an input, and only the cut to four results is modelled. Retrieval failures are modelled as that input being an exception message.
- Disk I/O is modelled as a map from path to text. Not modelled:
  - creating the upload directory;
  - binary copying;
  - `TextLoader`'s decoding errors;
  - failures of `open` and `os.remove` other than a missing file.
- The error printed to the terminal in `generate_tests` is not modelled.
- `main.py` is not part of this model. It holds the HTTP routing, the startup fallbacks and the HTTP 500 translation.
- `RagAgent.Reply` tags a parsed value apart from the agent's own error dictionaries. Python returns both as plain values, and a parsed JSON object can equal either error shape: a model reply of `{"error": "No relevant documentation found. Please upload documents first."}` is returned as a dictionary equal to the early-return reply. The contracts of `GenerateTests`, `NoDocsIff` and `FailuresAreInternalErrors` speak of the tag, that is, of which return statement was taken.
- Paths are compared as strings. Two spellings of one file, such as "./uploaded_docs/a.txt" and "./uploaded_docs/./a.txt", are different keys of the scratch map. Python sees one file there: the later write wins, both loads read it, and the cleanup as written raises. The model keeps two files and its cleanup as written completes. Symbolic links and case-insensitive file systems are not modelled either.
- The loader's decoding and newline handling are not modelled. `TextLoader` reads in text mode, so "\r\n" and "\r" come back as "\n". A loaded document holds the stored text unchanged in the model.
- `FileNotFoundMessage` quotes the path with single quotes. Python uses `repr(path)`, which differs for names that contain a quote or a backslash.
- Concurrent ingestions racing on the shared store are not modelled.
- `split` and `replace` are defined for non-empty separators only. The code only uses the fixed markers "```json", "```python" and "```".
- RagAgent.ExtractJsonFence: proved only when the "```" that closes the block is not the start of a run of four or five backticks continuing into a second "```json". For example, with "```json[1]````json" the code cuts at the second "```json" and leaves "[1]`". The payload is fence-free in every case (`RagAgent.ExtractPayload`).
- Ingestion.KnowledgeBase.IngestDocuments: uses the corrected cleanup (see Findings). The code as written raises `FileNotFoundError` for repeated file names, and that is modelled by `Ingestion.CleanupAsWritten`.

## Findings

| source | as written | input that shows it | evidently intended | confidence | as-written member | corrected member |
|---|---|---|---|---|---|---|
| ingestion.py:70-71 | `os.remove` runs once per saved path. Two uploads with the same file name share one saved path, so the second removal raises `FileNotFoundError` after the chunks were already persisted. | two uploads whose saved paths name the same file, for example both named "notes.md" (the model covers equal path strings only) | each scratch file is removed once, and the ingestion reports success | not executed | `Ingestion.DuplicateUploadCleanupRaises` | `Ingestion.KnowledgeBase.RemoveScratch` |
