/**
 * The pipeline: routing an input to PDF or image processing, choosing the
 * output mode, rasterizing a whole document or one page, and running the
 * parser over every page image in order.
 */
module OcrPipeline {
  import opened Text
  import opened Paths
  import opened Outcomes
  import opened Collaborators
  import opened OcrParser
  import opened PdfService

  /** What one image yields, by mode: stripped text, the engine's elements,
      or the confidence report. */
  datatype PageResult =
    | Text(text: string)
    | Data(elements: seq<Element>)
    | Confidence(report: ConfidenceReport)

  /** What `process` and `process_pdf` return: one result (an image, or one
      requested page) or the list of all pages' results. */
  datatype Output = Single(result: PageResult) | Pages(results: seq<PageResult>)

  /** Python's truth value of an optional page number: `None` and `0` are
      false. */
  predicate Truthy(pageNumber: Option<int>) {
    pageNumber.Some? && pageNumber.value != 0
  }

  class OCRPipeline {
    const pdfService: PDFToImageService
    const ocrParser: TesseractOCRParser

    /** The service gets the poppler directory and resolution, the parser the
        language. */
    constructor (popplerPath: Option<string> := None, dpi: int := 300, lang: string := "eng")
      ensures pdfService.popplerPath == popplerPath && pdfService.dpi == dpi
      ensures ocrParser.lang == lang
    {
      pdfService := new PDFToImageService(popplerPath, dpi);
      ocrParser := new TesseractOCRParser(lang);
    }

    // -----------------------------------------------------------------
    // Specification functions
    // -----------------------------------------------------------------

    /** `process_image`: a threshold, when given, selects the confidence
        report; otherwise `extractData` chooses between the element list and
        the stripped text. Errors pass through unchanged. */
    function ImageOutcome(env: Environment, source: ImageSource, extractData: bool, minConfidence: Option<real>)
      : (r: Result<PageResult>)
      ensures r.Err? ==> !r.error.TesseractError?
    {
      if minConfidence.Some? then
        match ocrParser.ExtractData(env, source)
        case Err(e) => Err(e)
        case Ok(data) => Ok(Confidence(Aggregate(data, minConfidence.value)))
      else if extractData then
        match ocrParser.ExtractData(env, source)
        case Err(e) => Err(e)
        case Ok(data) => Ok(Data(data))
      else
        match ocrParser.ExtractText(env, source)
        case Err(e) => Err(e)
        case Ok(text) => Ok(Text(text))
    }

    /** The mode precedence of lines 72-80: a threshold selects the confidence
        report over the recognised elements, whatever `extractData` says;
        without one, `extractData` selects the engine's elements, and
        otherwise the text, free of surrounding whitespace. Each mode fails
        exactly as the parser call behind it does. */
    lemma ImageOutcomeModes(env: Environment, source: ImageSource, extractData: bool, minConfidence: Option<real>)
      ensures var r := ImageOutcome(env, source, extractData, minConfidence);
              var data := ocrParser.ExtractData(env, source);
              var text := ocrParser.ExtractText(env, source);
              && (minConfidence.Some? ==>
                    && (r.Ok? <==> data.Ok?)
                    && (r.Ok? ==> r.value == Confidence(Aggregate(data.value, minConfidence.value)))
                    && (r.Err? ==> r.error == data.error))
              && (minConfidence.None? && extractData ==>
                    && (r.Ok? <==> data.Ok?)
                    && (r.Ok? ==> r.value == Data(data.value))
                    && (r.Err? ==> r.error == data.error))
              && (minConfidence.None? && !extractData ==>
                    && (r.Ok? <==> text.Ok?)
                    && (r.Ok? ==> r.value.Text? && Ok(r.value.text) == text && Trimmed(r.value.text))
                    && (r.Err? ==> r.error == text.error))
    {
    }

    /** The loop of lines 116-120: each image in order, stopping at the first
        failure. */
    function PagesOutcome(env: Environment, images: seq<Image>, extractData: bool, minConfidence: Option<real>)
      : (r: Result<seq<PageResult>>)
      ensures r.Ok? ==> |r.value| == |images|
      ensures r.Err? ==> !r.error.TesseractError?
    {
      if images == [] then Ok([])
      else
        var n := |images| - 1;
        match PagesOutcome(env, images[..n], extractData, minConfidence)
        case Err(e) => Err(e)
        case Ok(results) =>
          match ImageOutcome(env, Loaded(images[n]), extractData, minConfidence)
          case Err(e) => Err(e)
          case Ok(result) => Ok(results + [result])
    }

    /** The pages succeed exactly when every image does, and then give one
        result per image, in order. */
    lemma {:induction false} PagesOutcomeOk(env: Environment, images: seq<Image>, extractData: bool, minConfidence: Option<real>)
      ensures var r := PagesOutcome(env, images, extractData, minConfidence);
              && (r.Ok? <==> forall k :: 0 <= k < |images| ==>
                               ImageOutcome(env, Loaded(images[k]), extractData, minConfidence).Ok?)
              && (r.Ok? ==> forall k :: 0 <= k < |images| ==>
                              Ok(r.value[k]) == ImageOutcome(env, Loaded(images[k]), extractData, minConfidence))
    {
      if images != [] {
        var n := |images| - 1;
        var prefix := images[..n];
        PagesOutcomeOk(env, prefix, extractData, minConfidence);
        var before := PagesOutcome(env, prefix, extractData, minConfidence);
        var last := ImageOutcome(env, Loaded(images[n]), extractData, minConfidence);
        if before.Err? {
          var k :| 0 <= k < n && ImageOutcome(env, Loaded(prefix[k]), extractData, minConfidence).Err?;
          assert prefix[k] == images[k];
        } else if last.Ok? {
          var r := before.value + [last.value];
          forall k | 0 <= k < |images|
            ensures Ok(r[k]) == ImageOutcome(env, Loaded(images[k]), extractData, minConfidence)
          {
            if k < n {
              assert prefix[k] == images[k];
            }
          }
        }
      }
    }

    /** A failure is the failure of the first image that fails: every image
        before it succeeded. */
    lemma {:induction false} PagesOutcomeFirstFailure(env: Environment, images: seq<Image>, extractData: bool, minConfidence: Option<real>)
      ensures var r := PagesOutcome(env, images, extractData, minConfidence);
              r.Err? ==> exists k :: && 0 <= k < |images|
                                     && (forall j :: 0 <= j < k ==>
                                           ImageOutcome(env, Loaded(images[j]), extractData, minConfidence).Ok?)
                                     && ImageOutcome(env, Loaded(images[k]), extractData, minConfidence) == Err(r.error)
    {
      if images != [] {
        var n := |images| - 1;
        var before := PagesOutcome(env, images[..n], extractData, minConfidence);
        assert forall k :: 0 <= k < n ==> images[..n][k] == images[k];
        if before.Err? {
          PagesOutcomeFirstFailure(env, images[..n], extractData, minConfidence);
        } else {
          PagesOutcomeOk(env, images[..n], extractData, minConfidence);
        }
      }
    }

    /** Lines 110-113: a truthy page number asks for that one page, anything
        else for the whole document. */
    function PageImages(env: Environment, pdfPath: Path, pageNumber: Option<int>): (r: Result<seq<Image>>)
      ensures Truthy(pageNumber) ==>
                var page := pdfService.ConvertSinglePage(env, pdfPath, pageNumber.value);
                && (page.Ok? ==> r == Ok([page.value]))
                && (page.Err? ==> r == Err(page.error))
      ensures !Truthy(pageNumber) ==> r == pdfService.ConvertPdfToImages(env, pdfPath)
      ensures r.Ok? ==> r.value != []
    {
      if Truthy(pageNumber) then
        match pdfService.ConvertSinglePage(env, pdfPath, pageNumber.value)
        case Err(e) => Err(e)
        case Ok(image) => Ok([image])
      else
        pdfService.ConvertPdfToImages(env, pdfPath)
    }

    /** `process_pdf`. */
    function PdfOutcome(env: Environment, pdfPath: Path, extractData: bool, pageNumber: Option<int>, minConfidence: Option<real>)
      : (r: Result<Output>)
      ensures r.Ok? ==> (r.value.Single? <==> Truthy(pageNumber))
      ensures PageImages(env, pdfPath, pageNumber).Err? ==> r == Err(PageImages(env, pdfPath, pageNumber).error)
      ensures r.Err? ==> !r.error.TesseractError?
    {
      match PageImages(env, pdfPath, pageNumber)
      case Err(e) => Err(e)
      case Ok(images) =>
        match PagesOutcome(env, images, extractData, minConfidence)
        case Err(e) => Err(e)
        case Ok(results) =>
          if Truthy(pageNumber) then Ok(Single(results[0])) else Ok(Pages(results))
    }

    /** `process`: a missing input is refused before anything else; a name
        ending in `.pdf` (any letter case) goes to PDF processing, anything
        else is read as an image. */
    function ProcessOutcome(env: Environment, inputPath: Path, extractData: bool, pageNumber: Option<int>, minConfidence: Option<real>)
      : (r: Result<Output>)
      ensures inputPath !in env.files ==> r == Err(FileNotFoundError(InputFile, inputPath))
      ensures r.Ok? && !IsPdf(inputPath) ==> r.value.Single?
      ensures r.Err? ==> !r.error.TesseractError?
    {
      if inputPath !in env.files then Err(FileNotFoundError(InputFile, inputPath))
      else if IsPdf(inputPath) then PdfOutcome(env, inputPath, extractData, pageNumber, minConfidence)
      else
        match ImageOutcome(env, FromPath(inputPath), extractData, minConfidence)
        case Err(e) => Err(e)
        case Ok(result) => Ok(Single(result))
    }

    // -----------------------------------------------------------------
    // Properties
    // -----------------------------------------------------------------

    /** Once a threshold is given, `extractData` makes no difference. */
    lemma ThresholdTakesPrecedence(env: Environment, source: ImageSource, minConfidence: real)
      ensures ImageOutcome(env, source, true, Some(minConfidence))
              == ImageOutcome(env, source, false, Some(minConfidence))
      ensures ImageOutcome(env, source, false, Some(minConfidence)).Ok? ==>
                ImageOutcome(env, source, false, Some(minConfidence)).value.Confidence?
    {
    }

    /** If some page fails, the pages after it change nothing: the outcome of
        a prefix that already failed is the outcome of the whole list. */
    lemma {:induction false} FailureStopsTheLoop(env: Environment, images: seq<Image>, i: nat, extractData: bool, minConfidence: Option<real>)
      requires i <= |images|
      requires PagesOutcome(env, images[..i], extractData, minConfidence).Err?
      ensures PagesOutcome(env, images, extractData, minConfidence)
              == PagesOutcome(env, images[..i], extractData, minConfidence)
      decreases |images|
    {
      if i < |images| {
        var n := |images| - 1;
        assert images[..n][..i] == images[..i];
        FailureStopsTheLoop(env, images[..n], i, extractData, minConfidence);
      } else {
        assert images[..i] == images;
      }
    }

    /** A requested page (a truthy page number) yields one result, not a list:
        the result of the single image the backend returned for that page. */
    lemma SinglePageUnwrapped(env: Environment, pdfPath: Path, extractData: bool, pageNumber: int, minConfidence: Option<real>)
      requires pageNumber != 0
      ensures var r := PdfOutcome(env, pdfPath, extractData, Some(pageNumber), minConfidence);
              r.Ok? ==> && r.value.Single?
                        && var page := pdfService.ConvertSinglePage(env, pdfPath, pageNumber);
                        && page.Ok?
                        && Ok(r.value.result) == ImageOutcome(env, Loaded(page.value), extractData, minConfidence)
    {
      var page := pdfService.ConvertSinglePage(env, pdfPath, pageNumber);
      if page.Ok? {
        PagesOutcomeOk(env, [page.value], extractData, minConfidence);
      }
    }

    /** Without a page number the whole document is processed: one result per
        page image, in page order, and at least one. */
    lemma WholeDocument(env: Environment, pdfPath: Path, extractData: bool, minConfidence: Option<real>)
      ensures var r := PdfOutcome(env, pdfPath, extractData, None, minConfidence);
              r.Ok? ==> && r.value.Pages?
                        && var images := pdfService.ConvertPdfToImages(env, pdfPath);
                        && images.Ok?
                        && |r.value.results| == |images.value| >= 1
                        && forall k :: 0 <= k < |images.value| ==>
                             Ok(r.value.results[k]) == ImageOutcome(env, Loaded(images.value[k]), extractData, minConfidence)
    {
      var images := pdfService.ConvertPdfToImages(env, pdfPath);
      if images.Ok? {
        PagesOutcomeOk(env, images.value, extractData, minConfidence);
      }
    }

    /** Page number 0 is false in Python, so it asks for the whole document,
        exactly as no page number does. */
    lemma PageZeroMeansAllPages(env: Environment, pdfPath: Path, extractData: bool, minConfidence: Option<real>)
      ensures PdfOutcome(env, pdfPath, extractData, Some(0), minConfidence)
              == PdfOutcome(env, pdfPath, extractData, None, minConfidence)
    {
    }

    /** Whether an input exists is decided before any engine is consulted:
        two worlds with the same files give the same answer for a missing
        input, whatever their engines do. */
    lemma MissingInputIgnoresEngines(env1: Environment, env2: Environment, inputPath: Path,
                                     extractData: bool, pageNumber: Option<int>, minConfidence: Option<real>)
      requires env1.files == env2.files
      requires inputPath !in env1.files
      ensures ProcessOutcome(env1, inputPath, extractData, pageNumber, minConfidence)
              == ProcessOutcome(env2, inputPath, extractData, pageNumber, minConfidence)
    {
    }

    /** An existing input goes to PDF processing exactly when its suffix is
        `.pdf` in any letter case, and to image processing, as a single result
        and with the page number ignored, otherwise. */
    lemma Routing(env: Environment, inputPath: Path, extractData: bool, pageNumber: Option<int>, minConfidence: Option<real>)
      requires inputPath in env.files
      ensures IsPdf(inputPath) ==>
                ProcessOutcome(env, inputPath, extractData, pageNumber, minConfidence)
                == PdfOutcome(env, inputPath, extractData, pageNumber, minConfidence)
      ensures !IsPdf(inputPath) ==>
                var one := ImageOutcome(env, FromPath(inputPath), extractData, minConfidence);
                && (one.Ok? ==> ProcessOutcome(env, inputPath, extractData, pageNumber, minConfidence) == Ok(Single(one.value)))
                && (one.Err? ==> ProcessOutcome(env, inputPath, extractData, pageNumber, minConfidence) == Err(one.error))
    {
    }

    /** For an image input the page number makes no difference. */
    lemma PageNumberIgnoredForImages(env: Environment, inputPath: Path, extractData: bool,
                                     pageNumber1: Option<int>, pageNumber2: Option<int>, minConfidence: Option<real>)
      requires !IsPdf(inputPath)
      ensures ProcessOutcome(env, inputPath, extractData, pageNumber1, minConfidence)
              == ProcessOutcome(env, inputPath, extractData, pageNumber2, minConfidence)
    {
    }

    // -----------------------------------------------------------------
    // The operations
    // -----------------------------------------------------------------

    /** `process_image`. */
    method ProcessImage(env: Environment, source: ImageSource, extractData: bool := false, minConfidence: Option<real> := None)
      returns (r: Result<PageResult>)
      ensures r == ImageOutcome(env, source, extractData, minConfidence)
    {
      if minConfidence.Some? {
        var report := ocrParser.ExtractTextWithConfidence(env, source, minConfidence.value);
        r := if report.Ok? then Ok(Confidence(report.value)) else Err(report.error);
      } else if extractData {
        var data := ocrParser.ExtractData(env, source);
        r := if data.Ok? then Ok(Data(data.value)) else Err(data.error);
      } else {
        var text := ocrParser.ExtractText(env, source);
        r := if text.Ok? then Ok(Text(text.value)) else Err(text.error);
      }
    }

    /** `process_pdf`. */
    method ProcessPdf(env: Environment, pdfPath: Path, extractData: bool := false, pageNumber: Option<int> := None,
                      minConfidence: Option<real> := None)
      returns (r: Result<Output>)
      ensures r == PdfOutcome(env, pdfPath, extractData, pageNumber, minConfidence)
    {
      var images: seq<Image>;
      if Truthy(pageNumber) {
        var page := pdfService.ConvertSinglePage(env, pdfPath, pageNumber.value);
        if page.Err? {
          return Err(page.error);
        }
        images := [page.value];
      } else {
        var all := pdfService.ConvertPdfToImages(env, pdfPath);
        if all.Err? {
          return Err(all.error);
        }
        images := all.value;
      }
      assert PageImages(env, pdfPath, pageNumber) == Ok(images);
      var results: seq<PageResult> := [];
      for i := 0 to |images|
        invariant PagesOutcome(env, images[..i], extractData, minConfidence) == Ok(results)
      {
        var result := ProcessImage(env, Loaded(images[i]), extractData, minConfidence);
        PagesOutcomeStep(env, images, i, results, extractData, minConfidence);
        if result.Err? {
          PdfOutcomeOfPages(env, pdfPath, extractData, pageNumber, minConfidence, images);
          return Err(result.error);
        }
        results := results + [result.value];
      }
      assert images[..|images|] == images;
      PdfOutcomeOfPages(env, pdfPath, extractData, pageNumber, minConfidence, images);
      if Truthy(pageNumber) {
        r := Ok(Single(results[0]));
      } else {
        r := Ok(Pages(results));
      }
    }

    /** One turn of the loop of lines 117-120: a success extends the results,
        a failure ends the whole loop with that failure. */
    lemma PagesOutcomeStep(env: Environment, images: seq<Image>, i: nat, results: seq<PageResult>,
                           extractData: bool, minConfidence: Option<real>)
      requires i < |images|
      requires PagesOutcome(env, images[..i], extractData, minConfidence) == Ok(results)
      ensures var result := ImageOutcome(env, Loaded(images[i]), extractData, minConfidence);
              && (result.Ok? ==> PagesOutcome(env, images[..i + 1], extractData, minConfidence) == Ok(results + [result.value]))
              && (result.Err? ==> PagesOutcome(env, images, extractData, minConfidence) == Err(result.error))
    {
      assert images[..i + 1][..i] == images[..i];
      if ImageOutcome(env, Loaded(images[i]), extractData, minConfidence).Err? {
        FailureStopsTheLoop(env, images, i + 1, extractData, minConfidence);
      }
    }

    /** How `PdfOutcome` continues once the page images are known. */
    lemma PdfOutcomeOfPages(env: Environment, pdfPath: Path, extractData: bool, pageNumber: Option<int>,
                            minConfidence: Option<real>, images: seq<Image>)
      requires PageImages(env, pdfPath, pageNumber) == Ok(images)
      ensures var pages := PagesOutcome(env, images, extractData, minConfidence);
              && (pages.Err? ==> PdfOutcome(env, pdfPath, extractData, pageNumber, minConfidence) == Err(pages.error))
              && (pages.Ok? ==> |pages.value| >= 1)
              && (pages.Ok? ==>
                    PdfOutcome(env, pdfPath, extractData, pageNumber, minConfidence)
                    == if Truthy(pageNumber) then Ok(Single(pages.value[0])) else Ok(Pages(pages.value)))
    {
    }

    /** `process`. */
    method Process(env: Environment, inputPath: Path, extractData: bool := false, pageNumber: Option<int> := None,
                   minConfidence: Option<real> := None)
      returns (r: Result<Output>)
      ensures r == ProcessOutcome(env, inputPath, extractData, pageNumber, minConfidence)
    {
      if inputPath !in env.files {
        return Err(FileNotFoundError(InputFile, inputPath));
      }
      if IsPdf(inputPath) {
        r := ProcessPdf(env, inputPath, extractData, pageNumber, minConfidence);
      } else {
        var one := ProcessImage(env, FromPath(inputPath), extractData, minConfidence);
        r := if one.Ok? then Ok(Single(one.value)) else Err(one.error);
      }
    }
  }
}
