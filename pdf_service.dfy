/**
 * Text extraction from a PDF: each page contributes its native text when that is long enough,
 * otherwise the text OCR finds on its rendered image, and the contributions are joined with a
 * blank line between pages.
 */
module PDFService {
  import opened Wrappers
  import opened FoundationTypes

  /** Minimum length of a page's native text for it to be used without OCR. */
  const NativeTextThreshold: nat := 20

  const PageSeparator: string := "\n\n"

  datatype ExtractionMethod = Native | Ocr | Empty

  /** The `String` raw value stored on the open file. */
  function MethodRawValue(m: ExtractionMethod): string {
    match m
    case Native => "native"
    case Ocr => "ocr"
    case Empty => "empty"
  }

  datatype PDFExtractionResult = PDFExtractionResult(text: string, pageCount: nat, extractionMethod: ExtractionMethod)

  /** `documentLoadFailed(name)`, or an error thrown by the OCR of a page. */
  datatype PDFError = DocumentLoadFailed(name: string) | OcrFailed(message: string)

  /** `localizedDescription`: the `errorDescription` of `documentLoadFailed`, or the OCR error's own text. */
  function ErrorDescription(e: PDFError): string {
    match e
    case DocumentLoadFailed(name) => "Failed to load PDF: " + name
    case OcrFailed(message) => message
  }

  /**
   * What a page offers: its native text already trimmed of whitespace and newlines, that text's
   * `count` (its number of grapheme clusters, which Unicode text segmentation decides outside
   * the model), whether it could be rendered to an image, and what recognising that image
   * yields (text or a thrown error).
   */
  datatype Page = Page(nativeText: string, nativeCount: nat, rendered: bool, ocr: Result<string, string>)

  /**
   * What grapheme counting guarantees of a page: the count is zero exactly for the empty text,
   * and a cluster holds at least one scalar.
   */
  predicate CountsGraphemes(p: Page) {
    (p.nativeCount == 0 <==> p.nativeText == "") && p.nativeCount <= |p.nativeText|
  }

  /** A readable document, the page or `None` when `page(at:)` returned nil. */
  type Document = seq<Option<Page>>

  /** What one page adds: nothing, or a text and whether OCR produced it. */
  datatype Contribution = Skip | Text(text: string, viaOcr: bool)

  /** The per-page choice, `Failure` when OCR was tried and threw. */
  function PageContribution(p: Page): Result<Contribution, string> {
    if p.nativeCount >= NativeTextThreshold then Success(Text(p.nativeText, false))
    else if p.rendered then
      match p.ocr
      case Failure(e) => Failure(e)
      case Success(t) =>
        if t != "" then Success(Text(t, true))
        else if p.nativeText != "" then Success(Text(p.nativeText, false))
        else Success(Skip)
    else if p.nativeText != "" then Success(Text(p.nativeText, false))
    else Success(Skip)
  }

  /** The collected pages and the `usedOCR` flag after the first pages of the document. */
  function Collect(doc: Document): Result<(seq<string>, bool), string>
    decreases |doc|
  {
    if doc == [] then Success(([], false))
    else
      match Collect(doc[..|doc| - 1])
      case Failure(e) => Failure(e)
      case Success(acc) =>
        match doc[|doc| - 1]
        case None => Success(acc)
        case Some(p) =>
          match PageContribution(p)
          case Failure(e) => Failure(e)
          case Success(Skip) => Success(acc)
          case Success(Text(t, ocr)) => Success((acc.0 + [t], acc.1 || ocr))
  }

  /** `joined(separator:)`. */
  function Join(parts: seq<string>, sep: string): string
    decreases |parts|
  {
    if parts == [] then ""
    else if |parts| == 1 then parts[0]
    else Join(parts[..|parts| - 1], sep) + sep + parts[|parts| - 1]
  }

  /** `extractText(from:)` on a document that loaded (`Some`) or failed to load (`None`). */
  function Extract(document: Option<Document>, url: Url): Result<PDFExtractionResult, PDFError> {
    match document
    case None => Failure(DocumentLoadFailed(LastPathComponent(url)))
    case Some(doc) =>
      if |doc| == 0 then Success(PDFExtractionResult("", 0, Empty))
      else
        match Collect(doc)
        case Failure(e) => Failure(OcrFailed(e))
        case Success(acc) =>
          var text := Join(acc.0, PageSeparator);
          if text == "" then Success(PDFExtractionResult("", |doc|, Empty))
          else Success(PDFExtractionResult(text, |doc|, if acc.1 then Ocr else Native))
  }

  /** The loop of `extractText(from:)`, page by page. */
  method ExtractText(document: Option<Document>, url: Url) returns (r: Result<PDFExtractionResult, PDFError>)
    ensures r == Extract(document, url)
  {
    if document.None? {
      return Failure(DocumentLoadFailed(LastPathComponent(url)));
    }
    var doc := document.value;
    var pageCount := |doc|;
    if pageCount == 0 {
      return Success(PDFExtractionResult("", 0, Empty));
    }
    var pages: seq<string> := [];
    var usedOCR := false;
    for i := 0 to pageCount
      invariant Collect(doc[..i]) == Success((pages, usedOCR))
    {
      var step := CollectPage(doc, i, pages, usedOCR);
      if step.Failure? {
        CollectFailureSticks(doc, i + 1);
        return Failure(OcrFailed(step.error));
      }
      pages, usedOCR := step.value.0, step.value.1;
    }
    assert doc[..pageCount] == doc;
    var text := Join(pages, PageSeparator);
    if text == "" {
      return Success(PDFExtractionResult("", pageCount, Empty));
    }
    r := Success(PDFExtractionResult(text, pageCount, if usedOCR then Ocr else Native));
  }

  /** One iteration of the loop: the page at `i`, if there is one, adds its contribution. */
  method CollectPage(doc: Document, i: nat, pages: seq<string>, usedOCR: bool) returns (r: Result<(seq<string>, bool), string>)
    requires i < |doc| && Collect(doc[..i]) == Success((pages, usedOCR))
    ensures r == Collect(doc[..i + 1])
  {
    assert doc[..i + 1][..i] == doc[..i];
    if doc[i].None? {
      return Success((pages, usedOCR));
    }
    var page := doc[i].value;
    if page.nativeCount >= NativeTextThreshold {
      return Success((pages + [page.nativeText], usedOCR));
    } else if page.rendered {
      if page.ocr.Failure? {
        return Failure(page.ocr.error);
      }
      var result := page.ocr.value;
      if result != "" {
        return Success((pages + [result], true));
      } else if page.nativeText != "" {
        return Success((pages + [page.nativeText], usedOCR));
      }
    } else if page.nativeText != "" {
      return Success((pages + [page.nativeText], usedOCR));
    }
    r := Success((pages, usedOCR));
  }

  /** Once a page's OCR has thrown, the whole extraction has. */
  lemma {:induction false} CollectFailureSticks(doc: Document, k: nat)
    requires k <= |doc| && Collect(doc[..k]).Failure?
    ensures Collect(doc).Failure? && Collect(doc).error == Collect(doc[..k]).error
    decreases |doc| - k
  {
    if k < |doc| {
      assert doc[..k + 1][..k] == doc[..k];
      CollectFailureSticks(doc, k + 1);
    } else {
      assert doc[..k] == doc;
    }
  }

  /** A page with enough native text contributes it, whatever OCR would have said. */
  lemma LongNativeTextSkipsOcr(p: Page, ocr: Result<string, string>, rendered: bool)
    requires p.nativeCount >= NativeTextThreshold
    ensures PageContribution(p) == Success(Text(p.nativeText, false))
    ensures PageContribution(p.(ocr := ocr, rendered := rendered)) == PageContribution(p)
  {
  }

  /**
   * A short page that renders uses non-empty OCR text; otherwise its native text if any; and
   * it is left out only when both are empty.
   */
  lemma ShortPageChoice(p: Page)
    requires p.nativeCount < NativeTextThreshold && !(p.rendered && p.ocr.Failure?)
    ensures var c := PageContribution(p).value;
      (p.rendered && p.ocr.value != "" ==> c == Text(p.ocr.value, true)) &&
      (!(p.rendered && p.ocr.value != "") && p.nativeText != "" ==> c == Text(p.nativeText, false)) &&
      (c == Skip <==> p.nativeText == "" && !(p.rendered && p.ocr.value != ""))
  {
  }

  /** The page's text came from OCR. */
  predicate UsedOcr(p: Page) {
    PageContribution(p).Success? && PageContribution(p).value.Text? && PageContribution(p).value.viaOcr
  }

  /** Some page of the document contributed OCR text. */
  predicate AnyOcr(doc: Document) {
    exists i :: 0 <= i < |doc| && doc[i].Some? && UsedOcr(doc[i].value)
  }

  /** Every page of the document has a grapheme count consistent with its text. */
  predicate CountedDocument(doc: Document) {
    forall i :: 0 <= i < |doc| && doc[i].Some? ==> CountsGraphemes(doc[i].value)
  }

  /** Every contributed text is non-empty, and the flag says whether one came from OCR. */
  predicate Collected(doc: Document, pages: seq<string>, usedOCR: bool) {
    (forall k :: 0 <= k < |pages| ==> pages[k] != "") && (usedOCR <==> AnyOcr(doc))
  }

  lemma {:induction false} CollectMeaning(doc: Document)
    requires CountedDocument(doc) && Collect(doc).Success?
    ensures Collected(doc, Collect(doc).value.0, Collect(doc).value.1)
    decreases |doc|
  {
    if doc != [] {
      var init := doc[..|doc| - 1];
      CollectMeaning(init);
      assert forall i :: 0 <= i < |init| ==> init[i] == doc[i];
      var acc := Collect(init).value;
      var last := |doc| - 1;
      if doc[last].Some? && PageContribution(doc[last].value).Success? && PageContribution(doc[last].value).value.Text? {
        var p := doc[last].value;
        assert CountsGraphemes(p);
        assert PageContribution(p).value.text != "";
        var pages := acc.0 + [PageContribution(p).value.text];
        assert forall k :: 0 <= k < |acc.0| ==> pages[k] == acc.0[k];
      }
    }
  }

  /** Joining non-empty parts gives the empty string only for no parts at all. */
  lemma {:induction false} JoinEmpty(parts: seq<string>, sep: string)
    requires forall k :: 0 <= k < |parts| ==> parts[k] != ""
    ensures Join(parts, sep) == "" <==> parts == []
    decreases |parts|
  {
    if |parts| > 1 {
      assert parts[|parts| - 1] != "";
    } else if |parts| == 1 {
      assert parts[0] != "";
    }
  }

  /**
   * The result states the true page count, and its method is `Empty` exactly when no page
   * contributed text.
   */
  lemma ExtractionEmptyMeaning(doc: Document, url: Url)
    requires CountedDocument(doc) && Extract(Some(doc), url).Success?
    ensures var r := Extract(Some(doc), url).value;
      r.pageCount == |doc| &&
      (r.extractionMethod == Empty <==> r.text == "") &&
      (|doc| > 0 ==> (r.extractionMethod == Empty <==> Collect(doc).value.0 == []))
  {
    if |doc| > 0 {
      CollectMeaning(doc);
      JoinEmpty(Collect(doc).value.0, PageSeparator);
    }
  }

  /** The method is `Ocr` exactly when some page's text came from OCR. */
  lemma ExtractionOcrMeaning(doc: Document, url: Url)
    requires CountedDocument(doc) && Extract(Some(doc), url).Success?
    ensures Extract(Some(doc), url).value.extractionMethod == Ocr <==> AnyOcr(doc)
  {
    if |doc| > 0 {
      CollectMeaning(doc);
      var acc := Collect(doc).value;
      JoinEmpty(acc.0, PageSeparator);
      if AnyOcr(doc) {
        var i :| 0 <= i < |doc| && doc[i].Some? && UsedOcr(doc[i].value);
        OcrPageContributes(doc, i);
      }
    }
  }

  /** A page whose text came from OCR leaves a non-empty joined text. */
  lemma OcrPageContributes(doc: Document, i: nat)
    requires i < |doc| && doc[i].Some? && UsedOcr(doc[i].value) && Collect(doc).Success?
    ensures Collect(doc).value.0 != []
    decreases |doc|
  {
    var init := doc[..|doc| - 1];
    assert Collect(init).Success?;
    if i < |doc| - 1 {
      assert init[i] == doc[i];
      OcrPageContributes(init, i);
    }
  }

  /** The joined text holds the pages in order with one separator between neighbours. */
  lemma JoinAppends(parts: seq<string>, sep: string, part: string)
    ensures Join(parts + [part], sep) == if parts == [] then part else Join(parts, sep) + sep + part
  {
    assert (parts + [part])[..|parts|] == parts;
  }
}
