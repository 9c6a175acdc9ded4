/** `parse_to_md`, `parse_documents_in_folder` and `parse_and_get_nodes`:
    dispatch on the extension, one outcome per directory entry, and the
    projection of the outcomes onto the chunker's input. */
module Ingest {
  import opened Wrappers
  import opened Paths
  import opened DocxConversion
  import opened Chunking

  /** The first component of an outcome tuple: a llama_index `Document`
      wrapping the extracted text, or the bare string of a refusal. */
  datatype Content = Document(text: string) | Message(text: string)

  /** The tuple `(content, status, path)` that `parse_to_md` returns. */
  datatype Outcome = Outcome(parsed: Content, status: bool, path: string)

  /** The extractors `parse_to_md` dispatches to, as seen from the model:
      `pymupdf4llm.to_markdown`, the docx2md calls made by `docx_convert`,
      and `open(x).read()`. */
  datatype Extractors = Extractors(
    pdfToMarkdown: string -> Attempt<string>,
    docx: string -> DocxSteps,
    readText: string -> Attempt<string>)

  /** The keys of the extractor table. */
  datatype Format = Pdf | Docx | Md

  const Unavailable: string := "extension not available"

  /** Message of the `ValueError` raised by `documents, *_ = []`. */
  const UnpackError: string := "not enough values to unpack (expected at least 1, got 0)"

  /** Exact, case-sensitive lookup of an extension in the extractor table. */
  function FormatOf(ext: string): (f: Option<Format>)
    ensures f == Some(Pdf) <==> ext == "pdf"
    ensures f == Some(Docx) <==> ext == "docx"
    ensures f == Some(Md) <==> ext == "md"
    ensures f.None? <==> ext !in {"pdf", "docx", "md"}
  {
    if ext == "pdf" then Some(Pdf)
    else if ext == "docx" then Some(Docx)
    else if ext == "md" then Some(Md)
    else None
  }

  /** `extractors[ext](path)`. `docx_convert` is called with its defaults
      (no media directory, no Markdown tables) and never raises. */
  function Extract(f: Format, path: string, ex: Extractors): (r: Attempt<string>)
    ensures f == Docx ==> r.Returned? && DocxConvert(path, "", false, ex.docx).mediaSavedTo.None?
  {
    match f
    case Pdf => ex.pdfToMarkdown(path)
    case Docx => Returned(DocxConvert(path, "", false, ex.docx).text)
    case Md => ex.readText(path)
  }

  /** `parse_to_md(path)`. An unknown extension yields the refusal tuple; a
      known one yields a `Document` tagged `True`, whatever text the
      extractor produced; an exception from the pdf or md extractor
      propagates. */
  function ParseToMd(path: string, ex: Extractors): (r: Attempt<Outcome>)
    ensures FormatOf(Extension(path)).None? ==> r == Returned(Outcome(Message(Unavailable), false, path))
    ensures FormatOf(Extension(path)).Some? ==>
      match Extract(FormatOf(Extension(path)).value, path, ex)
      case Returned(text) => r == Returned(Outcome(Document(text), true, path))
      case Raised(message) => r == Raised(message)
    ensures r.Raised? ==> Extension(path) == "pdf" || Extension(path) == "md"
    ensures r.Returned? ==> r.value.path == path && (r.value.status <==> r.value.parsed.Document?)
  {
    match FormatOf(Extension(path))
    case None => Returned(Outcome(Message(Unavailable), false, path))
    case Some(f) =>
      match Extract(f, path, ex)
      case Raised(message) => Raised(message)
      case Returned(text) => Returned(Outcome(Document(text), true, path))
  }

  /** An unsupported path never reaches an extractor: its outcome is the same
      whatever the extractors would do. */
  lemma UnsupportedIgnoresExtractors(path: string, ex1: Extractors, ex2: Extractors)
    requires Extension(path) !in {"pdf", "docx", "md"}
    ensures ParseToMd(path, ex1) == ParseToMd(path, ex2)
    ensures ParseToMd(path, ex1).value.status == false
  {
  }

  /** A DOCX file on which any library call fails is reported as a success
      whose document text is the exception message. */
  lemma DocxFailureBecomesSuccess(path: string, ex: Extractors, message: string)
    requires Extension(path) == "docx"
    requires FirstFailure(ex.docx(path), "", false) == Some(message)
    ensures ParseToMd(path, ex) == Returned(Outcome(Document(ExceptionText(message)), true, path))
  {
  }

  /** A list comprehension `[f(x) for x in xs]` whose calls may raise:
      evaluated left to right, the first exception ends it. */
  function MapAttempts<A, B>(f: A -> Attempt<B>, xs: seq<A>): (r: Attempt<seq<B>>)
    ensures r.Returned? <==> forall i :: 0 <= i < |xs| ==> f(xs[i]).Returned?
    ensures r.Returned? ==> (|r.value| == |xs| && forall i :: 0 <= i < |xs| ==> f(xs[i]) == Returned(r.value[i]))
    ensures r.Raised? ==> exists k :: 0 <= k < |xs| && f(xs[k]) == Raised(r.message) &&
                                      forall j :: 0 <= j < k ==> f(xs[j]).Returned?
  {
    if xs == [] then Returned([])
    else
      match f(xs[0])
      case Raised(message) => Raised(message)
      case Returned(y) =>
        var rest := MapAttempts(f, xs[1..]);
        assert forall i :: 1 <= i < |xs| ==> xs[i] == xs[1..][i - 1];
        match rest
        case Raised(message) =>
          var k :| 0 <= k < |xs[1..]| && f(xs[1..][k]) == Raised(message) &&
                   forall j :: 0 <= j < k ==> f(xs[1..][j]).Returned?;
          assert f(xs[k + 1]) == Raised(message);
          Raised(message)
        case Returned(ys) => Returned([y] + ys)
  }

  /** `parse_documents_in_folder(folder)` over the listing `entries`. */
  function ParseDocumentsInFolder(folder: string, entries: seq<string>, ex: Extractors): (r: Attempt<seq<Outcome>>)
    ensures r.Returned? <==> forall i :: 0 <= i < |entries| ==> ParseToMd(folder + entries[i], ex).Returned?
    ensures r.Returned? ==> (|r.value| == |entries| &&
      forall i :: 0 <= i < |entries| ==> ParseToMd(folder + entries[i], ex) == Returned(r.value[i]))
    ensures r.Raised? ==> exists k :: 0 <= k < |entries| && ParseToMd(folder + entries[k], ex) == Raised(r.message) &&
                                      forall j :: 0 <= j < k ==> ParseToMd(folder + entries[j], ex).Returned?
  {
    MapAttempts(file => ParseToMd(folder + file, ex), entries)
  }

  /** One column of `zip(*outcomes)`. */
  datatype Column = Parsed(contents: seq<Content>) | Statuses(flags: seq<bool>) | Locations(names: seq<string>)

  /** The first components of the outcomes, in order. */
  function Firsts(outcomes: seq<Outcome>): (contents: seq<Content>)
    ensures |contents| == |outcomes|
    ensures forall i :: 0 <= i < |outcomes| ==> contents[i] == outcomes[i].parsed
  {
    if outcomes == [] then [] else [outcomes[0].parsed] + Firsts(outcomes[1..])
  }

  /** `list(zip(*outcomes))`: no tuple at all for no outcomes, otherwise one
      tuple per component of the three-element outcomes. */
  function Unzip(outcomes: seq<Outcome>): (columns: seq<Column>)
    ensures |columns| == if outcomes == [] then 0 else 3
    ensures outcomes != [] ==> columns[0] == Parsed(Firsts(outcomes))
    ensures outcomes != [] ==> (columns[1].Statuses? && |columns[1].flags| == |outcomes| &&
      forall i :: 0 <= i < |outcomes| ==> columns[1].flags[i] == outcomes[i].status)
    ensures outcomes != [] ==> (columns[2].Locations? && |columns[2].names| == |outcomes| &&
      forall i :: 0 <= i < |outcomes| ==> columns[2].names[i] == outcomes[i].path)
  {
    if outcomes == [] then []
    else [Parsed(Firsts(outcomes)),
          Statuses(seq(|outcomes|, i requires 0 <= i < |outcomes| => outcomes[i].status)),
          Locations(seq(|outcomes|, i requires 0 <= i < |outcomes| => outcomes[i].path))]
  }

  /** `parse_and_get_nodes(folder)`: walk the folder, keep the first column of
      `zip(*outcomes)` without looking at the status, and chunk it with the
      default `max_len`. */
  function ParseAndGetNodes(folder: string, entries: seq<string>, ex: Extractors,
                            mdParse: seq<Content> -> seq<Node>,
                            fallback: (SplitterConfig, Node) -> seq<Node>): (r: Attempt<seq<Node>>)
    ensures entries == [] ==> r == Raised(UnpackError)
    ensures ParseDocumentsInFolder(folder, entries, ex).Raised? ==>
      r == Raised(ParseDocumentsInFolder(folder, entries, ex).message)
    ensures r.Returned? <==> entries != [] && ParseDocumentsInFolder(folder, entries, ex).Returned?
    ensures r.Returned? ==>
      r.value == ReplaceOrKeep(mdParse(Firsts(ParseDocumentsInFolder(folder, entries, ex).value)), DefaultMaxLen, fallback)
  {
    match ParseDocumentsInFolder(folder, entries, ex)
    case Raised(message) => Raised(message)
    case Returned(outcomes) =>
      var columns := Unzip(outcomes);
      if |columns| < 1 then Raised(UnpackError)
      else Returned(ReplaceOrKeep(mdParse(columns[0].contents), DefaultMaxLen, fallback))
  }

  /** Outcome `i` of a completed walk belongs to `folder + entries[i]`, and
      when the entry's name has a dot its status is decided by the entry's
      own extension alone. */
  lemma WalkOutcomeOfEntry(folder: string, entries: seq<string>, ex: Extractors, i: nat)
    requires ParseDocumentsInFolder(folder, entries, ex).Returned?
    requires i < |entries|
    ensures var outcome := ParseDocumentsInFolder(folder, entries, ex).value[i];
      outcome.path == folder + entries[i] &&
      (Dot in entries[i] ==> (outcome.status <==> Extension(entries[i]) in {"pdf", "docx", "md"}))
  {
    ExtensionOfConcat(folder, entries[i]);
  }

  /** What the Markdown parser is handed: one item per directory entry, in
      listing order; the refusal string for an unsupported entry and the
      extracted text, error text included, for a supported one. */
  lemma ChunkerInputPerEntry(folder: string, entries: seq<string>, ex: Extractors, i: nat)
    requires ParseDocumentsInFolder(folder, entries, ex).Returned?
    requires i < |entries|
    ensures var input := Firsts(ParseDocumentsInFolder(folder, entries, ex).value);
      var path := folder + entries[i];
      |input| == |entries| &&
      match FormatOf(Extension(path))
      case None => input[i] == Message(Unavailable)
      case Some(f) => input[i] == Document(Extract(f, path, ex).value)
  {
    var outcomes := ParseDocumentsInFolder(folder, entries, ex).value;
    assert ParseToMd(folder + entries[i], ex) == Returned(outcomes[i]);
  }

  /** With the default `max_len`, a folder whose structural nodes are all at
      most 256 characters long is chunked into exactly those nodes. */
  lemma NoLongNodesNoSplitting(folder: string, entries: seq<string>, ex: Extractors,
                               mdParse: seq<Content> -> seq<Node>,
                               fallback: (SplitterConfig, Node) -> seq<Node>, outcomes: seq<Outcome>)
    requires entries != [] && ParseDocumentsInFolder(folder, entries, ex) == Returned(outcomes)
    requires forall n :: n in mdParse(Firsts(outcomes)) ==> |n.content| <= DefaultMaxLen
    ensures ParseAndGetNodes(folder, entries, ex, mdParse, fallback) == Returned(mdParse(Firsts(outcomes)))
  {
    var nodes := mdParse(Firsts(outcomes));
    assert forall i :: 0 <= i < |nodes| ==> nodes[i] in nodes;
    ReplaceOrKeepIdentity(nodes, DefaultMaxLen, fallback);
  }

  /** A folder holding a DOCX file on which the library fails, a Markdown
      file and a file of another type: nothing is filtered, so the Markdown
      parser receives the exception text as a document and the refusal
      string beside the real text. */
  lemma FailuresReachTheParser(folder: string, docx: string, md: string, other: string,
                               ex: Extractors, message: string, text: string)
    requires Extension(folder + docx) == "docx" && FirstFailure(ex.docx(folder + docx), "", false) == Some(message)
    requires Extension(folder + md) == "md" && ex.readText(folder + md) == Returned(text)
    requires Extension(folder + other) !in {"pdf", "docx", "md"}
    ensures ParseDocumentsInFolder(folder, [docx, md, other], ex).Returned?
    ensures Firsts(ParseDocumentsInFolder(folder, [docx, md, other], ex).value) ==
      [Document(ExceptionText(message)), Document(text), Message(Unavailable)]
  {
    var entries := [docx, md, other];
    var o0 := Outcome(Document(ExceptionText(message)), true, folder + docx);
    var o1 := Outcome(Document(text), true, folder + md);
    var o2 := Outcome(Message(Unavailable), false, folder + other);
    assert ParseToMd(folder + entries[0], ex) == Returned(o0);
    assert ParseToMd(folder + entries[1], ex) == Returned(o1);
    assert ParseToMd(folder + entries[2], ex) == Returned(o2);
    var outcomes := ParseDocumentsInFolder(folder, entries, ex).value;
    assert outcomes == [o0, o1, o2];
  }
}
