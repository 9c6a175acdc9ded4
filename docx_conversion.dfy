/** `docx_convert`: DOCX to Markdown through the docx2md library, with every
    exception the library raises turned into text. */
module DocxConversion {
  import opened Wrappers

  /** How each docx2md call that `docx_convert` makes turns out for one file.
      The library itself is not part of this model. */
  datatype DocxSteps = DocxSteps(
    openFile: Attempt<()>,             // DocxFile(docx_file)
    loadMedia: Attempt<()>,            // DocxMedia(docx)
    saveMedia: string -> Attempt<()>,  // media.save(target_dir)
    convert: bool -> Attempt<string>)  // Converter(docx.document(), media, use_md_table).convert()

  /** What one call produces: the returned string, and the directory that
      `media.save` was called with, if it was called. */
  datatype DocxRun = DocxRun(text: string, mediaSavedTo: Option<string>)

  const ExceptionPrefix: string := "Exception: "

  /** The string `f"Exception: {e}"` returned in place of Markdown. */
  function ExceptionText(message: string): (text: string)
    ensures |text| == |ExceptionPrefix| + |message|
    ensures text[..|ExceptionPrefix|] == ExceptionPrefix && text[|ExceptionPrefix|..] == message
  {
    ExceptionPrefix + message
  }

  /** The message of the first library call that raises, in the order the
      try block makes them; `None` when none raises. The media are saved only
      when `targetDir` is non-empty. */
  function FirstFailure(steps: DocxSteps, targetDir: string, useMdTable: bool): Option<string>
  {
    if steps.openFile.Raised? then Some(steps.openFile.message)
    else if steps.loadMedia.Raised? then Some(steps.loadMedia.message)
    else if targetDir != "" && steps.saveMedia(targetDir).Raised? then Some(steps.saveMedia(targetDir).message)
    else if steps.convert(useMdTable).Raised? then Some(steps.convert(useMdTable).message)
    else None
  }

  /** `docx_convert(docx_file, target_dir, use_md_table)`: never raises; the
      text is the converted Markdown when every call returns, and otherwise
      the first exception's message behind "Exception: ". */
  function DocxConvert(docxFile: string, targetDir: string, useMdTable: bool,
                       library: string -> DocxSteps): (run: DocxRun)
    ensures var steps := library(docxFile);
      match FirstFailure(steps, targetDir, useMdTable)
      case Some(message) => run.text == ExceptionText(message)
      case None => run.text == steps.convert(useMdTable).value
    ensures run.mediaSavedTo.Some? <==>
      targetDir != "" && library(docxFile).openFile.Returned? && library(docxFile).loadMedia.Returned?
    ensures run.mediaSavedTo.Some? ==> run.mediaSavedTo.value == targetDir
  {
    var steps := library(docxFile);
    if steps.openFile.Raised? then
      DocxRun(ExceptionText(steps.openFile.message), None)
    else if steps.loadMedia.Raised? then
      DocxRun(ExceptionText(steps.loadMedia.message), None)
    else
      var saved := if targetDir != "" then Some(targetDir) else None;
      var save := if targetDir != "" then steps.saveMedia(targetDir) else Returned(());
      if save.Raised? then
        DocxRun(ExceptionText(save.message), saved)
      else
        match steps.convert(useMdTable)
        case Raised(message) => DocxRun(ExceptionText(message), saved)
        case Returned(markdown) => DocxRun(markdown, saved)
  }

  /** The returned text alone cannot tell a failure from a document: a file
      that fails to open and a file whose Markdown happens to read
      "Exception: <message>" give the same result. */
  lemma FailureIndistinguishableFromContent(docxFile: string, message: string,
                                            failing: string -> DocxSteps, succeeding: string -> DocxSteps)
    requires failing(docxFile).openFile == Raised(message)
    requires succeeding(docxFile) == DocxSteps(Returned(()), Returned(()),
      _ => Returned(()), _ => Returned(ExceptionText(message)))
    ensures DocxConvert(docxFile, "", false, failing) == DocxConvert(docxFile, "", false, succeeding)
  {
  }
}
