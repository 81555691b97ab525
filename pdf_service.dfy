/**
 * The PDF service: rasterizing a PDF (all pages, a page range or a single
 * page) through the poppler backend, and saving images under numbered names.
 */
module PdfService {
  import opened Text
  import opened Paths
  import opened Outcomes
  import opened Collaborators

  /** The file name of the `index`-th saved image:
      `f"{base_name}_{index:03d}.{format.lower()}"`. */
  function OutputName(baseName: string, index: nat, format: string): string {
    (baseName + "_") + FormatIndex(index) + ("." + ToLower(format))
  }

  /** The middle part of a concatenation can be read back by position. */
  lemma MiddlePart(prefix: string, middle: string, suffix: string)
    ensures (prefix + middle + suffix)[|prefix|..|prefix| + |middle|] == middle
  {
  }

  /** Different indices give different file names. */
  lemma OutputNameInjective(baseName: string, i: nat, j: nat, format: string)
    requires OutputName(baseName, i, format) == OutputName(baseName, j, format)
    ensures i == j
  {
    var prefix := baseName + "_";
    var suffix := "." + ToLower(format);
    var fi := FormatIndex(i);
    var fj := FormatIndex(j);
    assert |fi| == |fj|;
    MiddlePart(prefix, fi, suffix);
    MiddlePart(prefix, fj, suffix);
    assert fi == fj;
    FormatIndexRoundTrip(i);
    FormatIndexRoundTrip(j);
  }

  /** The paths of the images of one `save_images` call are pairwise
      different. */
  lemma SavedPathsDistinct(outputDir: Path, baseName: string, format: string, paths: seq<Path>)
    requires forall k :: 0 <= k < |paths| ==> paths[k] == Child(outputDir, OutputName(baseName, k + 1, format))
    ensures forall k, l :: 0 <= k < l < |paths| ==> paths[k] != paths[l]
  {
    forall k, l | 0 <= k < l < |paths| ensures paths[k] != paths[l] {
      var a := OutputName(baseName, k + 1, format);
      var b := OutputName(baseName, l + 1, format);
      if paths[k] == paths[l] {
        ChildInjective(outputDir, a, b);
        OutputNameInjective(baseName, k + 1, l + 1, format);
      }
    }
  }

  /** The name is the base name, an underscore, the index as a numeral of
      three digits (for the first 999 images) and the lower-cased format as
      its extension. */
  lemma OutputNameShape(baseName: string, index: nat, format: string)
    requires index < 1000
    ensures exists digits: string ::
              && OutputName(baseName, index, format) == (baseName + "_") + digits + ("." + ToLower(format))
              && |digits| == 3 && AllDigits(digits) && DecimalValue(digits) == index
  {
    FormatIndexRoundTrip(index);
    var digits := FormatIndex(index);
    assert OutputName(baseName, index, format) == (baseName + "_") + digits + ("." + ToLower(format));
  }

  lemma FormatIndexOne()
    ensures FormatIndex(1) == "001"
  {
    assert Digits(1) == "1";
    assert "0" + "1" == "01" && "0" + "01" == "001";
    assert ZeroPad("001", 3) == "001";
    assert ZeroPad("01", 3) == "001";
  }

  lemma FormatIndexTwo()
    ensures FormatIndex(2) == "002"
  {
    assert Digits(2) == "2";
    assert "0" + "2" == "02" && "0" + "02" == "002";
    assert ZeroPad("002", 3) == "002";
    assert ZeroPad("02", 3) == "002";
  }

  lemma LowerPng()
    ensures ToLower("PNG") == "png"
  {
    assert "PNG"[1..] == "NG" && "NG"[1..] == "G";
  }

  lemma LowerJpeg()
    ensures ToLower("JPEG") == "jpeg"
  {
    assert "JPEG"[1..] == "PEG" && "PEG"[1..] == "EG" && "EG"[1..] == "G";
  }

  lemma DefaultNameParts()
    ensures ("page" + "_") + "001" + ("." + "png") == "page_001.png"
  {
    assert "page" + "_" == "page_";
    assert "page_" + "001" == "page_001";
    assert "." + "png" == ".png";
  }

  lemma SecondNameParts()
    ensures ("test" + "_") + "002" + ("." + "png") == "test_002.png"
  {
    assert "test" + "_" == "test_";
    assert "test_" + "002" == "test_002";
    assert "." + "png" == ".png";
  }

  lemma JpegNameParts()
    ensures ("page" + "_") + "001" + ("." + "jpeg") == "page_001.jpeg"
  {
    assert "page" + "_" == "page_";
    assert "page_" + "001" == "page_001";
    assert "." + "jpeg" == ".jpeg";
  }

  /** The first image under the default base name and format is
      `page_001.png`. */
  lemma DefaultNameExample()
    ensures OutputName("page", 1, "PNG") == "page_001.png"
  {
    FormatIndexOne();
    LowerPng();
    DefaultNameParts();
  }

  /** The second image of base name `test` is `test_002.png`. */
  lemma SecondNameExample()
    ensures OutputName("test", 2, "PNG") == "test_002.png"
  {
    FormatIndexTwo();
    LowerPng();
    SecondNameParts();
  }

  /** Format `JPEG` gives the extension `.jpeg`. */
  lemma JpegNameExample()
    ensures OutputName("page", 1, "JPEG") == "page_001.jpeg"
  {
    FormatIndexOne();
    LowerJpeg();
    JpegNameParts();
  }

  class PDFToImageService {
    const popplerPath: Option<string>
    const dpi: int

    /** Both settings are stored as given; 300 dpi and no poppler directory
        when omitted. */
    constructor (popplerPath: Option<string> := None, dpi: int := 300)
      ensures this.popplerPath == popplerPath && this.dpi == dpi
    {
      this.popplerPath := popplerPath;
      this.dpi := dpi;
    }

    /** The backend call for a page range, with this service's settings. */
    function Request(pdfPath: Path, firstPage: Option<int>, lastPage: Option<int>): ConversionRequest
    {
      ConversionRequest(pdfPath, dpi, firstPage, lastPage, popplerPath)
    }

    /** `convert_pdf_to_images`: a missing file raises `FileNotFoundError`;
        otherwise the backend's pages are returned when there is at least one,
        and every failure becomes a `PDFConversionError`, one raised as such
        passing through without a second wrapping. */
    function ConvertPdfToImages(env: Environment, pdfPath: Path, firstPage: Option<int> := None, lastPage: Option<int> := None)
      : (r: Result<seq<Image>>)
      ensures pdfPath !in env.files ==> r == Err(FileNotFoundError(PdfFile, pdfPath))
      ensures r.Ok? ==> && pdfPath in env.files
                        && r == env.convertFromPath(Request(pdfPath, firstPage, lastPage))
                        && r.value != []
      ensures pdfPath in env.files && r.Err? ==> r.error.PDFConversionError?
      ensures pdfPath in env.files && env.convertFromPath(Request(pdfPath, firstPage, lastPage)).Ok?
              && env.convertFromPath(Request(pdfPath, firstPage, lastPage)).value != [] ==>
                r == env.convertFromPath(Request(pdfPath, firstPage, lastPage))
      ensures pdfPath in env.files && env.convertFromPath(Request(pdfPath, firstPage, lastPage)) == Ok([]) ==>
                r == Err(PDFConversionError(NoPagesExtracted))
      ensures pdfPath in env.files && env.convertFromPath(Request(pdfPath, firstPage, lastPage)).Err? ==>
                var e := env.convertFromPath(Request(pdfPath, firstPage, lastPage)).error;
                r == Err(if e.PDFConversionError? then e else PDFConversionError(FailedToConvert(e)))
    {
      if pdfPath !in env.files then Err(FileNotFoundError(PdfFile, pdfPath))
      else
        match env.convertFromPath(Request(pdfPath, firstPage, lastPage))
        case Ok(images) =>
          if images == [] then Err(PDFConversionError(NoPagesExtracted)) else Ok(images)
        case Err(e) =>
          if e.PDFConversionError? then Err(e) else Err(PDFConversionError(FailedToConvert(e)))
    }

    /** `convert_single_page`: the first image of the range `[n, n]`. */
    function ConvertSinglePage(env: Environment, pdfPath: Path, pageNumber: int := 1): (r: Result<Image>)
      ensures var range := ConvertPdfToImages(env, pdfPath, Some(pageNumber), Some(pageNumber));
              && (range.Err? ==> r == Err(range.error))
              && (range.Ok? ==> r == Ok(range.value[0]))
    {
      match ConvertPdfToImages(env, pdfPath, Some(pageNumber), Some(pageNumber))
      case Err(e) => Err(e)
      case Ok(images) =>
        if images == [] then Err(PDFConversionError(PageNotConverted(pageNumber))) else Ok(images[0])
    }

    /** The second emptiness test of `convert_single_page` never fires: the
        range conversion has already refused an empty answer, so a single
        page fails only where the range conversion fails, and otherwise is
        the backend's first image for the requested page. */
    lemma SinglePageNeverEmpty(env: Environment, pdfPath: Path, pageNumber: int)
      ensures var r := ConvertSinglePage(env, pdfPath, pageNumber);
              && (r.Err? ==> ConvertPdfToImages(env, pdfPath, Some(pageNumber), Some(pageNumber)).Err?)
              && (r.Ok? ==> var answer := env.convertFromPath(Request(pdfPath, Some(pageNumber), Some(pageNumber)));
                            answer.Ok? && answer.value != [] && r.value == answer.value[0])
    {
    }

    /** `save_images`: one numbered file per image, in order, each written
        with the upper-cased format; `saves` lists the `image.save` calls. */
    method SaveImages(images: seq<Image>, outputDir: Path, baseName: string := "page", format: string := "PNG")
      returns (savedPaths: seq<Path>, saves: seq<SaveRequest>)
      ensures |savedPaths| == |images| && |saves| == |images|
      ensures forall k :: 0 <= k < |images| ==>
                savedPaths[k] == Child(outputDir, OutputName(baseName, k + 1, format))
      ensures forall k :: 0 <= k < |images| ==>
                saves[k] == SaveRequest(images[k], savedPaths[k], ToUpper(format))
      ensures forall k, l :: 0 <= k < l < |savedPaths| ==> savedPaths[k] != savedPaths[l]
    {
      savedPaths := [];
      saves := [];
      var upper := ToUpper(format);
      for i := 0 to |images|
        invariant |savedPaths| == i && |saves| == i
        invariant forall k :: 0 <= k < i ==>
                    savedPaths[k] == Child(outputDir, OutputName(baseName, k + 1, format))
        invariant forall k :: 0 <= k < i ==> saves[k] == SaveRequest(images[k], savedPaths[k], upper)
      {
        var outputPath := Child(outputDir, OutputName(baseName, i + 1, format));
        saves := saves + [SaveRequest(images[i], outputPath, upper)];
        savedPaths := savedPaths + [outputPath];
      }
      SavedPathsDistinct(outputDir, baseName, format, savedPaths);
    }
  }
}
