# Folder ingestion and chunking (`src/ingest.py`)

This project models the ingestion glue of a small retrieval pipeline. A folder
listing becomes one outcome tuple `(content, status, path)` per entry. The
extractor is chosen by the text after the last dot of the path. The first
components of all outcomes go to a Markdown node parser. Every resulting node
longer than `max_len` characters is replaced in place by the output of a
fallback sentence splitter.

Modules:

- `Wrappers` (`wrappers.dfy`): `Option`, and `Attempt`, a value returned or an exception raised.
- `Paths` (`paths.dfy`): `path.split('.')[-1]` as `Split` plus last piece. It is characterised exactly by the last dot.
- `DocxConversion` (`docx_conversion.dfy`): `docx_convert`, its library calls in order, and the catch-all that turns any exception into the text `"Exception: <message>"`.
- `Chunking` (`chunking.dfy`): `chunk_docs` as a method with a loop, proved against the function `ReplaceOrKeep`, and `node_lens`.
- `Ingest` (`ingest.dfy`): `parse_to_md`, the folder walk, the `zip(*…)` projection and `parse_and_get_nodes`.

Foreign code is modelled by parameters:

- `pymupdf4llm.to_markdown` and `open(x).read()` are functions returning an `Attempt<string>`. An exception they raise is not caught, and it ends the whole walk.
- The docx2md calls are given per file as a `DocxSteps` record.
- The Markdown node parser is a function `seq<Content> -> seq<Node>`.
- The fallback splitter is a function of its configuration (`chunk_size = max_len`, `chunk_overlap = 20`) and the node.
- `os.listdir(folder)` is the input sequence `entries`.

The model follows the code as written, including behaviour a reader may not expect:

- Outcomes tagged `False` are not filtered out. Their refusal string is handed to the parser like any document.
- A failed DOCX conversion is tagged `True`, and its exception text becomes document content.
- The extension lookup is case-sensitive and covers exactly `pdf`, `docx` and `md`. A `txt` file is refused.
- Nothing bounds the size of the fallback's output in characters. The splitter counts tokens.

## Model

| member | source | states |
|---|---|---|
| Paths.Split | src/ingest.py:78 | `str.split` with a separator: at least one piece, no piece contains the separator, and joining the pieces with it gives back the input |
| Paths.Extension | src/ingest.py:78 | the extension is the suffix after the last `.`, contains no `.`, and is the whole path when the path has no `.` |
| Paths.ExtensionCharacterized | src/ingest.py:78 | a string is the extension of a path if and only if it is a dot-free suffix that is the whole path or preceded by `.` |
| Paths.ExtensionOfConcat | src/ingest.py:59-61 | for `folder + file` the extension is the file's own when the file name has a dot; otherwise it is the folder's extension followed by the file name, or the whole path |
| DocxConversion.ExceptionText | src/ingest.py:44-45 | the returned string is `"Exception: "` followed by exactly the exception message |
| DocxConversion.DocxConvert | src/ingest.py:37-45 | never raises; the text is the converter's Markdown when no library call raises, otherwise "Exception: " plus the first raised message; `media.save` is called with `target_dir` exactly when `target_dir` is non-empty and the file and its media loaded |
| DocxConversion.FailureIndistinguishableFromContent | src/ingest.py:44-45 | a file that fails to open and a file whose Markdown reads "Exception: <message>" give identical results |
| Ingest.FormatOf | src/ingest.py:73-79 | exactly the strings `pdf`, `docx` and `md`, compared case-sensitively, select an extractor |
| Ingest.Extract | src/ingest.py:73-77 | the docx extractor always returns, called with no media directory, so it saves no media |
| Ingest.ParseToMd | src/ingest.py:63-81 | an unknown extension gives `("extension not available", False, path)`; a known one gives `(Document(text), True, path)` with the extractor's text, whatever it is, or the extractor's exception; only pdf and md can raise; status is true exactly for documents |
| Ingest.UnsupportedIgnoresExtractors | src/ingest.py:79-80 | an unsupported path gets the same failure outcome whatever the extractors do |
| Ingest.DocxFailureBecomesSuccess | src/ingest.py:75-81 | a DOCX whose library calls fail yields a success outcome whose document text is "Exception: " plus the message |
| Ingest.MapAttempts | src/ingest.py:59-61 | a comprehension whose calls may raise returns if and only if every call returns, then with one result per element in order; otherwise it raises the message of the first call that raises, every earlier call having returned |
| Ingest.ParseDocumentsInFolder | src/ingest.py:59-61 | the walk returns if and only if every entry's dispatch returns; then it has one outcome per entry, in order, outcome `i` being the dispatch of `folder + entries[i]`; otherwise it raises the first entry's exception |
| Ingest.WalkOutcomeOfEntry | src/ingest.py:59-61 | outcome `i` has path `folder + entries[i]`, with no separator added; for an entry with a dot, its status holds exactly when the entry's own extension is supported |
| Ingest.Firsts | src/ingest.py:120 | the projection keeps the first component of every outcome, failures included, in order |
| Ingest.Unzip | src/ingest.py:120 | `zip(*outcomes)` has no tuple for no outcomes; otherwise three: the first components, the statuses and the paths, each in outcome order |
| Ingest.ParseAndGetNodes | src/ingest.py:109-121 | an empty listing raises the unpacking error; a walk exception propagates; otherwise the result is the replace-or-keep chunking, at `max_len` 256, of the parsed first components |
| Ingest.ChunkerInputPerEntry | src/ingest.py:119-121 | the parser gets one item per entry; item `i` is the refusal string for an unsupported entry and the extracted text for a supported one |
| Ingest.NoLongNodesNoSplitting | src/ingest.py:119-121 | when no structural node exceeds 256 characters, the pipeline returns the parser's nodes unchanged |
| Ingest.FailuresReachTheParser | src/ingest.py:119-121 | a failed DOCX, a Markdown file and an unsupported file give the parser the exception text, the Markdown text and the refusal string, in listing order |
| Chunking.ChunkDocs | src/ingest.py:83-107 | the loop's output is the in-order concatenation of the fallback's output for each node longer than `max_len`, with every other node kept |
| Chunking.ReplaceOrKeepAppend | src/ingest.py:102-107 | chunking a concatenation is the concatenation of the chunkings |
| Chunking.ReplaceOrKeepAt | src/ingest.py:102-107 | each node's replacement sits exactly between the outputs for the nodes before and after it |
| Chunking.ReplaceOrKeepIdentity | src/ingest.py:102-107 | when no node exceeds `max_len`, the nodes come back unchanged |
| Chunking.FallbackOnlyForLongNodes | src/ingest.py:103-106 | the output depends on the fallback only through the nodes longer than `max_len` |
| Chunking.ChunkOrigin | src/ingest.py:102-107 | every output node is a kept input node of at most `max_len` characters, or comes from the fallback's output for a longer node |
| Chunking.NodeLens | src/ingest.py:130 | one length per node, in order, each the content length of its node |
| Chunking.LongChunksComeFromFallback | src/ingest.py:103-106 | a chunk longer than `max_len` comes from the fallback's output for a long structural node |

## Left out

- The extractors are not modelled inside: `pymupdf4llm.to_markdown`, the docx2md classes and file reading. They are opaque parameters that either return text or raise.
- The Markdown node parser and the sentence splitter are not modelled inside. They are total opaque functions. Exceptions inside them are not modelled. Two examples: the parser handed a bare refusal string, and the splitter's own check of chunk size against overlap.
- ChunkDocs: no bound on chunk size after the fallback is stated. The splitter measures tokens, while the loop measures characters.
- DocxConvert: only `Exception` subclasses are caught in the source. Other `BaseException`s, such as a keyboard interrupt, are outside the model.
- `os.listdir` is an input sequence. Its order, a missing folder and directory entries that are themselves directories are not modelled.
- The `print` in `node_lens` and the `__main__` blocks are output only.
- Node metadata other than an identifier and the content is not modelled.
- `index.py`, `src/index.py` and `src/main.py` are not part of this model. They cover the vector store, the embeddings, index building and the query demo.
