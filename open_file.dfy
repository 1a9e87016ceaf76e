/** A document open in the editor: a text file, an image read by OCR, a PDF, or the scrapbook. */
module OpenFiles {
  import opened Wrappers
  import opened FoundationTypes
  import opened Languages

  datatype FileType = Text | Image | Pdf

  datatype OpenFile = OpenFile(
    id: UUID,
    url: Url,
    name: string,
    content: string,
    detectedLanguage: Option<SupportedLanguage>,
    selectedSourceLanguage: Option<SupportedLanguage>,
    isExternallyModified: bool,
    fileType: FileType,
    sourceImageURL: Option<Url>,
    sourcePDFURL: Option<Url>,
    pdfPageCount: Option<int>,
    pdfExtractionMethod: Option<string>)
  {
    predicate IsScrapbook() {
      url == ScrapbookURL
    }

    predicate IsImage() {
      fileType == Image
    }

    predicate IsPDF() {
      fileType == Pdf
    }
  }

  /** The scrapbook's reserved location, which no file on disk can have. */
  const ScrapbookURL: Url := "/dev/null/Scrapbook"

  /**
   * The initializer, with `id` the fresh `UUID()`. The source language starts out as the
   * detected one, and the file is not yet marked as changed on disk.
   */
  function NewOpenFile(id: UUID, url: Url, name: string, content: string,
                       detectedLanguage: Option<SupportedLanguage>, fileType: FileType,
                       sourceImageURL: Option<Url>, sourcePDFURL: Option<Url>,
                       pdfPageCount: Option<int>, pdfExtractionMethod: Option<string>): (f: OpenFile)
    ensures f.id == id && f.url == url && f.name == name && f.content == content
    ensures f.detectedLanguage == detectedLanguage && f.selectedSourceLanguage == detectedLanguage
    ensures !f.isExternallyModified && f.fileType == fileType
    ensures f.sourceImageURL == sourceImageURL && f.sourcePDFURL == sourcePDFURL
    ensures f.pdfPageCount == pdfPageCount && f.pdfExtractionMethod == pdfExtractionMethod
  {
    OpenFile(id, url, name, content, detectedLanguage, detectedLanguage, false, fileType,
             sourceImageURL, sourcePDFURL, pdfPageCount, pdfExtractionMethod)
  }

  /** The initializer with every defaulted argument left out: a text file with no language yet. */
  function NewTextFile(id: UUID, url: Url, name: string, content: string): (f: OpenFile)
    ensures f == NewOpenFile(id, url, name, content, None, Text, None, None, None, None)
  {
    NewOpenFile(id, url, name, content, None, Text, None, None, None, None)
  }

  /** `newScrapbook()`: an empty text document at the reserved location. */
  function NewScrapbook(id: UUID): (f: OpenFile)
    ensures f.IsScrapbook() && f.content == "" && f.name == "Scrapbook" && f.fileType == Text
    ensures f.detectedLanguage.None? && f.selectedSourceLanguage.None? && !f.isExternallyModified
  {
    NewTextFile(id, ScrapbookURL, "Scrapbook", "")
  }

  /** A file is an image or a PDF by its type alone, and never both. */
  lemma KindsExclusive(f: OpenFile)
    ensures f.IsImage() <==> f.fileType == Image
    ensures f.IsPDF() <==> f.fileType == Pdf
    ensures !(f.IsImage() && f.IsPDF())
  {
  }
}
