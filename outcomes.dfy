/**
 * Optional values, the exceptions the core raises or lets through, and the
 * result of an operation that either returns a value or raises.
 */
module Outcomes {

  datatype Option<T> = None | Some(value: T)

  /** Which existence check raised a `FileNotFoundError`: the image loader
      ("Image file not found"), the PDF service ("PDF file not found") or the
      pipeline's router ("Input file not found"). */
  datatype Origin = ImageFile | PdfFile | InputFile

  /** Which parser step raised an `OCRError`: loading the image ("Failed to
      load image"), plain recognition ("OCR processing failed") or data
      recognition ("OCR data extraction failed"). */
  datatype OcrStage = Loading | TextRecognition | DataRecognition

  /** Why a `PDFConversionError` was raised: the rasterizer returned no page
      ("No pages extracted from PDF"), the rasterizer raised something else
      ("Failed to convert PDF: ..."), or a single-page request came back empty
      ("Failed to convert page ..."). */
  datatype ConversionFailure =
    | NoPagesExtracted
    | FailedToConvert(cause: Exception)
    | PageNotConverted(page: int)

  /** The exceptions of the core; `TesseractError` and `OtherError` stand for
      what the external engines raise themselves. */
  datatype Exception =
    | FileNotFoundError(origin: Origin, path: string)
    | OCRError(stage: OcrStage, cause: Exception)
    | PDFConversionError(reason: ConversionFailure)
    | TesseractError(detail: string)
    | OtherError(detail: string)

  /** A call that returns `value` or raises `error`. */
  datatype Result<T> = Ok(value: T) | Err(error: Exception)
}
