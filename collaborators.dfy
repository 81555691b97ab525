/**
 * The external engines the core delegates to (Tesseract through pytesseract,
 * poppler through pdf2image, PIL) and the filesystem, as one value of
 * oracles that the operations receive as a parameter.
 */
module Collaborators {
  import opened Outcomes
  import opened Paths

  /** A loaded bitmap (a PIL image); only its identity matters here. */
  datatype Image = Image(handle: nat)

  datatype Bbox = Bbox(left: int, top: int, width: int, height: int)

  /** The position of an element in Tesseract's page/block/paragraph/line/word
      hierarchy, carried through unchanged. */
  datatype Layout = Layout(level: int, pageNum: int, blockNum: int, parNum: int, lineNum: int, wordNum: int)

  /** One entry of `image_to_data`'s parallel arrays: index `i` of `text`,
      `conf`, `left`, `top`, `width`, `height` and of the layout arrays. A
      confidence of -1 marks an entry with no recognised text. */
  datatype Element = Element(text: string, conf: int, bbox: Bbox, layout: Layout)

  /** The arguments of one `convert_from_path` call. */
  datatype ConversionRequest = ConversionRequest(
    pdfPath: Path,
    dpi: int,
    firstPage: Option<int>,
    lastPage: Option<int>,
    popplerPath: Option<string>)

  /** The arguments of one `image.save(path, format)` call. */
  datatype SaveRequest = SaveRequest(image: Image, path: Path, format: string)

  /** What the world answers: the files that exist, and what `Image.open`,
      `image_to_string`, `image_to_data` (each given the image, the language
      and the configuration string) and `convert_from_path` return or raise. */
  datatype Environment = Environment(
    files: set<Path>,
    open: Path -> Result<Image>,
    imageToString: (Image, string, string) -> Result<string>,
    imageToData: (Image, string, string) -> Result<seq<Element>>,
    convertFromPath: ConversionRequest -> Result<seq<Image>>)
}
