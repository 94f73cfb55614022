/** What the tools see of the files and documents they handle. PDF parsing,
    page copying and saving belong to pdf-lib (and, for the JPEG export,
    pdf.js) and are not modelled: a document is the sequence of its pages
    and a page is left uninterpreted. */
module Documents {
  import opened Text

  /** One page of a PDF document; its drawing is opaque to the tools. */
  datatype Page = Page(drawing: seq<int>)

  /** A `File` picked in an `<input type="file">`: its name and what
      pdf-lib's `PDFDocument.load` makes of its bytes, `None` when loading
      throws. The JPEG export opens files with pdf.js instead and takes that
      library's outcome separately (`PdfJpg.ConvertToJpg`). */
  datatype File = File(name: string, pdf: Option<seq<Page>>)

  /** A document offered for download under the given file name. */
  datatype Download = Download(name: string, pages: seq<Page>)
}
