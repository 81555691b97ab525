# python-tesseract OCR core in Dafny

A model of the OCR core of python-tesseract. The core has three parts:

- **`TesseractOCRParser`** loads an image and runs Tesseract's plain recognition (`extract_text`, whose answer is stripped of surrounding whitespace) or its detailed recognition (`extract_data`). It maps engine failures to `OCRError`. Its confidence aggregator (`extract_text_with_confidence`) keeps the recognised elements whose text is not blank and whose confidence reaches a threshold. From those it reports the joined text, the word records, the mean of the positive confidences and the word count.
- **`PDFToImageService`** rasterizes a PDF through poppler. It covers all pages, a page range or a single page `[n, n]`, and its error taxonomy is: missing file, no pages, a wrapped foreign failure, and its own error re-raised as it is. It also names saved images `{base}_{index:03d}.{format.lower()}`.
- **`OCRPipeline`** routes an input: an existence check first, then a case-insensitive `.pdf` suffix test, otherwise the input is an image. It picks the output mode by precedence: confidence report, then raw data, then text. For a PDF it runs the parser over every page image in order, stopping at the first failure, and unwraps the result when a single page was asked for.

The external engines and the filesystem are one `Environment` value (`collaborators.dfy`). It holds the set of existing paths and oracle functions standing for `Image.open`, `image_to_string`, `image_to_data` and `convert_from_path`. Each oracle returns a `Result` or raises one of the `Exception` values of `outcomes.dfy`. Python's `isinstance` tests on exceptions (`TesseractError`, `PDFConversionError`) are therefore modelled exactly.

The three classes keep their fields as `const`s, because `__init__` sets them once and nothing updates them. The loops of the source are methods:

- `ExtractTextWithConfidence` has the word-collecting loop;
- `ProcessPdf` has the page loop;
- `SaveImages` has the naming loop.

Each loop method is proved equal to a specification function (`Aggregate`, `PdfOutcome`), or its results are stated pointwise. The properties are lemmas about those functions.

Files:

- `text.dfy`: `str.strip`, `' '.join`, ASCII `lower`/`upper` and `{n:03d}`;
- `paths.dfy`: `PurePosixPath.name`/`.suffix` and `/`;
- `outcomes.dfy`;
- `collaborators.dfy`;
- `ocr_parser.dfy`;
- `pdf_service.dfy`;
- `ocr_pipeline.dfy`.

## Model

| member | source | states |
|---|---|---|
| Text.Strip | src/parsers/ocr_parser.py:106 | `str.strip()`, specified by `StripSlice`, `StripUnique` and `StripIdempotent`: the unique slice without surrounding whitespace |
| Text.IsBlank | src/parsers/ocr_parser.py:187 | `not text.strip()`, specified by `StripOfSpace`: every character is whitespace |
| Text.StripSlice | src/parsers/ocr_parser.py:106 | `strip()` returns a slice of the text that neither starts nor ends with whitespace, and everything it drops before and after it is whitespace |
| Text.StripTrimmed | src/parsers/ocr_parser.py:106 | the stripped text has no whitespace at either end |
| Text.StripUnique | src/parsers/ocr_parser.py:106 | any split into leading whitespace, a middle that starts and ends with non-whitespace, and trailing whitespace has the middle as `strip()` — strip removes exactly the surrounding whitespace |
| Text.StripOfSpace | src/parsers/ocr_parser.py:187 | `not text.strip()` holds exactly when every character is whitespace |
| Text.StripIdempotent | src/parsers/ocr_parser.py:106 | stripping twice equals stripping once |
| Text.TrimmedIsStripped | src/parsers/ocr_parser.py:106 | a text with no whitespace at either end is its own `strip()` |
| Text.JoinSpaced | src/parsers/ocr_parser.py:208 | `' '.join(parts)`, specified by `JoinSpacedAppend`, `JoinSpacedLength` and `JoinSpacedEmpty` |
| Text.JoinSpacedAppend | src/parsers/ocr_parser.py:208 | joining one more part adds one space and that part (just the part when there was none) |
| Text.JoinSpacedLength | src/parsers/ocr_parser.py:208 | the length of the joined text is the total length of the parts plus one for each gap between neighbouring parts |
| Text.JoinSpacedEmpty | src/parsers/ocr_parser.py:208 | the join is empty exactly when there is no part or a single empty part |
| Text.ToLower | src/services/pdf_service.py:143 | same length; each character is lower-cased in place |
| Text.ToUpper | src/services/pdf_service.py:144 | same length; each character is upper-cased in place |
| Text.Digits | src/services/pdf_service.py:143 | `str(n)` is a non-empty string of digits, of two or more digits exactly when n >= 10, with no leading zero unless n is 0 |
| Text.DigitsRoundTrip | src/services/pdf_service.py:143 | reading back the decimal digits of n gives n |
| Text.ZeroPadSpec | src/services/pdf_service.py:143 | zero padding keeps the numeral as the tail, adds only `0`s in front, and reaches the width exactly (or leaves a longer numeral alone) |
| Text.PaddedIsZerosThen | src/services/pdf_service.py:143 | the padded numeral is a run of zeros followed by the numeral |
| Text.LeadingZeros | src/services/pdf_service.py:143 | leading zeros do not change the value of a numeral |
| Text.FormatIndex | src/services/pdf_service.py:143 | `f"{n:03d}"`, specified by `FormatIndexRoundTrip` and `ZeroPadSpec`: a zero-padded numeral of n of width at least 3 |
| Text.FormatIndexRoundTrip | src/services/pdf_service.py:143 | `{n:03d}` is a numeral that reads back as n, of length max(3, length of `str(n)`), exactly 3 when n < 1000, and equal to `str(n)` from 100 on |
| Text.DigitsBound | src/services/pdf_service.py:143 | numbers below 1000 have at most 3 digits |
| Text.DigitsAtLeastThree | src/services/pdf_service.py:143 | numbers from 100 on have at least 3 digits |
| Paths.RFind | src/parsers/ocr_pipeline.py:157 | the result is -1 or the index of the last occurrence of the character |
| Paths.Name | src/parsers/ocr_pipeline.py:157 | a path's final component has no slash and is never `.` |
| Paths.Suffix | src/parsers/ocr_pipeline.py:157 | `PurePosixPath.suffix`: the final component from its last dot on, empty when that dot is its first or last character; specified through `PdfSuffixByEnding` and `IsPdfByName` |
| Paths.IsPdf | src/parsers/ocr_pipeline.py:157 | the routing test `suffix.lower() == '.pdf'`, characterised by `IsPdfByName` |
| Paths.PdfSuffixByEnding | src/parsers/ocr_pipeline.py:157 | a name's suffix lower-cases to `.pdf` exactly when the name has at least one character before a final `.pdf` in any case |
| Paths.PdfEndingIsSuffix | src/parsers/ocr_pipeline.py:157 | a name ending in `.pdf` (any case) has its last dot four characters from the end |
| Paths.IsPdfByName | src/parsers/ocr_pipeline.py:157 | the routing test `suffix.lower() == '.pdf'` holds exactly when the final component has a character before a final `.pdf` in any case |
| Paths.Child | src/services/pdf_service.py:143 | `Path(dir) / name`: the bare name under `""` or `.`, otherwise `dir/name`; specified by `ChildInjective` and `NameOfChild` |
| Paths.ChildInjective | src/services/pdf_service.py:143 | two children of one directory are equal only when their names are |
| Paths.NameOfPlain | src/parsers/ocr_pipeline.py:157 | a path without a slash (other than `""` and `.`) is its own name |
| Paths.NameOfChild | src/parsers/ocr_pipeline.py:157 | the name of `dir/n`, for a component `n` without slash other than `""` and `.`, is `n`, whatever the directory part |
| Paths.NameIgnoresTrailingSlash | src/parsers/ocr_pipeline.py:157 | a trailing slash does not change the name |
| Paths.NameIgnoresTrailingDot | src/parsers/ocr_pipeline.py:157 | a trailing `/.` component does not change the name |
| Paths.PdfRouteExample | src/parsers/ocr_pipeline.py:157-158 | `test.pdf` is routed to PDF processing |
| Paths.UpperCasePdfRouteExample | src/parsers/ocr_pipeline.py:157-158 | `scan.PDF` is routed to PDF processing |
| Paths.DirectoryRouteExample | src/parsers/ocr_pipeline.py:157-158 | `docs/scan.PDF` is routed to PDF processing by its final component |
| Paths.ImageRouteExample | src/parsers/ocr_pipeline.py:157-163 | `test.png` is routed to image processing |
| Paths.HiddenFileRouteExample | src/parsers/ocr_pipeline.py:157-163 | `.pdf` alone has no suffix and is routed to image processing |
| OcrParser.Keeps | src/parsers/ocr_parser.py:187-192 | the two filters of the loop, characterised by `EmittedIff` and `KeptIndicesSpec` |
| OcrParser.KeptWords | src/parsers/ocr_parser.py:185-203 | the loop's word list, specified by `KeptWordsFollowIndices`, `EmittedIff` and `KeptWordsSound` |
| OcrParser.KeptIndices | src/parsers/ocr_parser.py:186-192 | every kept position is a position of the element list |
| OcrParser.KeptIndicesSpec | src/parsers/ocr_parser.py:186-192 | the kept positions increase strictly, each passes both filters, and every position passing both filters is kept |
| OcrParser.KeptWordsFollowIndices | src/parsers/ocr_parser.py:185-203 | the k-th word is the record of the element at the k-th kept position: original order, unstripped text, confidence and box |
| OcrParser.EmittedIff | src/parsers/ocr_parser.py:186-192 | element i is emitted if and only if its stripped text is non-empty and its confidence is at least the threshold |
| OcrParser.KeptWordsSound | src/parsers/ocr_parser.py:186-192 | every emitted word has a non-blank text and a confidence at least the threshold |
| OcrParser.AtLeastShrinks | src/parsers/ocr_parser.py:190-192 | filtering words by confidence never adds words |
| OcrParser.RaisingThreshold | src/parsers/ocr_parser.py:190-192 | the words at a higher threshold are exactly the words at the lower one whose confidence reaches it, in the same order |
| OcrParser.MonotoneWordCount | src/parsers/ocr_parser.py:190-192 | a higher threshold yields no more words, and only positions also kept at the lower threshold |
| OcrParser.Texts | src/parsers/ocr_parser.py:208 | one text per word, the word's own text |
| OcrParser.PositiveConfidences | src/parsers/ocr_parser.py:205 | `valid_conf`, specified by `PositiveConfidencesSpec` and `PositiveConfidencesComplete` |
| OcrParser.PositiveConfidencesSpec | src/parsers/ocr_parser.py:205 | `valid_conf` holds only positive values, each some word's confidence, and is empty exactly when no word's confidence is positive |
| OcrParser.Confidences | src/parsers/ocr_parser.py:205 | one confidence per word, the word's own, in order |
| OcrParser.AtLeastPrepend | src/parsers/ocr_parser.py:205 | filtering by confidence keeps or drops the first word by its own confidence and filters the rest independently |
| OcrParser.PositiveConfidencesComplete | src/parsers/ocr_parser.py:205 | `valid_conf` is exactly the confidences of the words whose confidence is positive, in order, none left out |
| OcrParser.AverageOfPositiveConfidences | src/parsers/ocr_parser.py:205-206 | `avg_confidence` is the mean of exactly the positive confidences of the kept words |
| OcrParser.Mean | src/parsers/ocr_parser.py:206 | `sum(xs) / len(xs) if xs else 0`, bounded by `MeanBounds` |
| OcrParser.Summarize | src/parsers/ocr_parser.py:205-214 | the report of the kept words, specified by `AverageOfPositiveConfidences`, `AverageConfidenceRange` and `FullTextEmptyIffNoWords` |
| OcrParser.Aggregate | src/parsers/ocr_parser.py:185-214 | filtering then summarising, specified by the same lemmas and proved equal to the loop of `ExtractTextWithConfidence` |
| OcrParser.SumBounds | src/parsers/ocr_parser.py:206 | a sum of n values in [lo, hi] lies in [n*lo, n*hi] |
| OcrParser.MeanBounds | src/parsers/ocr_parser.py:206 | the mean of values in [lo, hi] lies in [lo, hi] |
| OcrParser.AverageConfidenceRange | src/parsers/ocr_parser.py:205-206 | `avg_confidence` is never negative, is 0 exactly when no kept word has a positive confidence, and is 0 when no word is kept |
| OcrParser.AverageConfidenceAtMost100 | src/parsers/ocr_parser.py:205-206 | with engine confidences of at most 100 the average is at most 100 |
| OcrParser.FullTextEmptyIffNoWords | src/parsers/ocr_parser.py:208-214 | `total_words` is the number of words (the number of kept positions), and `full_text` is empty exactly when no word is kept |
| OcrParser.RecognitionFailure | src/parsers/ocr_parser.py:108-110 | a `TesseractError` becomes an `OCRError` of the given step with that error as cause; every other exception passes through unchanged |
| OcrParser.TesseractOCRParser.constructor | src/parsers/ocr_parser.py:23-47 | the language is stored as given, `eng` by default |
| OcrParser.TesseractOCRParser.LoadImage | src/parsers/ocr_parser.py:49-73 | a loaded image is returned unchanged; a missing path raises `FileNotFoundError`; a path that exists gives what opening it gives: the opened image when the open succeeds, and a failed open raises `OCRError` of the loading step with the open's exception as cause |
| OcrParser.TesseractOCRParser.ExtractText | src/parsers/ocr_parser.py:75-110 | a load failure passes through; whenever the load and the engine succeed, the result is the engine's string stripped, and every success is of that form and trimmed; an engine failure is mapped by `RecognitionFailure`; no `TesseractError` escapes |
| OcrParser.TesseractOCRParser.ExtractData | src/parsers/ocr_parser.py:112-160 | a load failure passes through; a success is the engine's element list unchanged; an engine failure is mapped by `RecognitionFailure`; no `TesseractError` escapes |
| OcrParser.TesseractOCRParser.ExtractTextWithConfidence | src/parsers/ocr_parser.py:162-215 | a data-extraction failure passes through; otherwise the report is `Aggregate` of the elements: the loop's words are exactly the filtered records |
| OcrParser.NoThresholdWords | src/parsers/ocr_parser.py:185-203 | at threshold 0 the empty element with confidence -1 is dropped and the other three kept in order |
| OcrParser.NoThresholdSummary | src/parsers/ocr_parser.py:205-214 | words with confidences 95, 88, 75 give `Hello World Test`, average 86 and 3 words |
| OcrParser.NoThresholdExample | src/parsers/ocr_parser.py:162-215 | four elements at threshold 0: 3 words, `Hello World Test`, the first word's box kept, average 86 |
| OcrParser.ThresholdWords | src/parsers/ocr_parser.py:190-192 | threshold 80 keeps 95 and 88 and drops 50 |
| OcrParser.ThresholdSummary | src/parsers/ocr_parser.py:205-214 | two words with confidences 95 and 88 average 91.5 |
| OcrParser.ThresholdExample | src/parsers/ocr_parser.py:162-215 | threshold 80 over 95, 88, 50: 2 words, `Hello World`, average 91.5 |
| OcrParser.EverythingFilteredExample | src/parsers/ocr_parser.py:162-215 | threshold 90 over 30 and 40: no word, empty text, average 0 |
| PdfService.OutputName | src/services/pdf_service.py:143 | `f"{base_name}_{idx:03d}.{format.lower()}"`, specified by `OutputNameShape` and `OutputNameInjective` |
| PdfService.OutputNameInjective | src/services/pdf_service.py:143 | different indices give different file names |
| PdfService.SavedPathsDistinct | src/services/pdf_service.py:142-145 | the paths of one `save_images` call are pairwise different |
| PdfService.OutputNameShape | src/services/pdf_service.py:143 | for the first 999 images the name is base, `_`, a 3-digit numeral reading back as the index, `.` and the lower-cased format |
| PdfService.DefaultNameExample | src/services/pdf_service.py:123-143 | the first image under the defaults is `page_001.png` |
| PdfService.SecondNameExample | src/services/pdf_service.py:143 | the second image of base `test` is `test_002.png` |
| PdfService.JpegNameExample | src/services/pdf_service.py:143 | format `JPEG` gives `page_001.jpeg` |
| PdfService.PDFToImageService.constructor | src/services/pdf_service.py:23-33 | poppler path and dpi are stored as given; `None` and 300 by default |
| PdfService.PDFToImageService.Request | src/services/pdf_service.py:63-69 | the `convert_from_path` arguments: the path, this service's dpi and poppler path, the caller's range; `ConvertPdfToImages` is stated against it |
| PdfService.PDFToImageService.ConvertPdfToImages | src/services/pdf_service.py:35-87 | a missing file raises `FileNotFoundError` before the backend; for an existing file, a non-empty backend answer for this service's dpi and poppler path and the caller's range is the result, and every success is such an answer; an empty answer raises `PDFConversionError` (no pages); a backend `PDFConversionError` is re-raised as is, any other failure wrapped once as `PDFConversionError` |
| PdfService.PDFToImageService.ConvertSinglePage | src/services/pdf_service.py:89-117 | the range `[n, n]` is converted; its failure passes through, its success gives the first image |
| PdfService.PDFToImageService.SinglePageNeverEmpty | src/services/pdf_service.py:108-117 | the second emptiness test never fires: a single page fails only when the range conversion fails, and is otherwise the first image of the backend's non-empty answer |
| PdfService.PDFToImageService.SaveImages | src/services/pdf_service.py:119-149 | one path and one save per image, in order; the k-th path is the output directory joined with the name for index k+1; each save writes that image to that path with the upper-cased format; the paths are pairwise different |
| OcrPipeline.Truthy | src/parsers/ocr_pipeline.py:110-123 | Python's truth value of `page_number`; `PageZeroMeansAllPages` and `SinglePageUnwrapped` state its effect |
| OcrPipeline.OCRPipeline.constructor | src/parsers/ocr_pipeline.py:26-50 | the service gets the poppler path and dpi, the parser the language |
| OcrPipeline.OCRPipeline.ImageOutcome | src/parsers/ocr_pipeline.py:71-84 | no `TesseractError` escapes image processing |
| OcrPipeline.OCRPipeline.ImageOutcomeModes | src/parsers/ocr_pipeline.py:72-80 | a threshold selects the confidence report of the detailed recognition; otherwise `extract_data` selects the element list; otherwise the trimmed text; each mode succeeds exactly when its parser call does and fails with that call's error |
| OcrPipeline.OCRPipeline.ThresholdTakesPrecedence | src/parsers/ocr_pipeline.py:72-77 | with a threshold, `extract_data` makes no difference and a success is a confidence report |
| OcrPipeline.OCRPipeline.PagesOutcome | src/parsers/ocr_pipeline.py:116-120 | a success has one result per image, and no `TesseractError` escapes |
| OcrPipeline.OCRPipeline.PagesOutcomeOk | src/parsers/ocr_pipeline.py:116-120 | the page loop succeeds exactly when every image does, and then the k-th result is that of the k-th image, with the same mode arguments for every page |
| OcrPipeline.OCRPipeline.PagesOutcomeFirstFailure | src/parsers/ocr_pipeline.py:116-130 | a failure of the loop is the failure of some image all of whose predecessors succeeded: the first failure propagates unchanged |
| OcrPipeline.OCRPipeline.FailureStopsTheLoop | src/parsers/ocr_pipeline.py:116-120 | once a prefix of the pages has failed, the later pages change nothing |
| OcrPipeline.OCRPipeline.PagesOutcomeStep | src/parsers/ocr_pipeline.py:117-120 | one loop turn: a success extends the results, a failure is the outcome of the whole loop |
| OcrPipeline.OCRPipeline.PageImages | src/parsers/ocr_pipeline.py:110-113 | a truthy page number converts that single page (as a one-image list), anything else the whole document; a success is non-empty |
| OcrPipeline.OCRPipeline.PdfOutcome | src/parsers/ocr_pipeline.py:86-130 | a conversion failure is the result unchanged; a success is a single result exactly when the page number is truthy; no `TesseractError` escapes |
| OcrPipeline.OCRPipeline.PdfOutcomeOfPages | src/parsers/ocr_pipeline.py:116-126 | once the page images are known, a page failure is the result and a success gives at least one result: the first one unwrapped for a truthy page number, the list otherwise |
| OcrPipeline.OCRPipeline.SinglePageUnwrapped | src/parsers/ocr_pipeline.py:110-124 | a non-zero page number yields one unwrapped result, that of the single image converted for the page |
| OcrPipeline.OCRPipeline.WholeDocument | src/parsers/ocr_pipeline.py:113-126 | without a page number the result is a list with one result per converted image, in page order, and at least one |
| OcrPipeline.OCRPipeline.PageZeroMeansAllPages | src/parsers/ocr_pipeline.py:110-123 | page number 0 behaves exactly like none |
| OcrPipeline.OCRPipeline.ProcessOutcome | src/parsers/ocr_pipeline.py:151-163 | a missing input raises `FileNotFoundError`; a non-PDF input gives a single result; no `TesseractError` escapes |
| OcrPipeline.OCRPipeline.MissingInputIgnoresEngines | src/parsers/ocr_pipeline.py:151-154 | for a missing input the answer depends only on the files, not on any engine |
| OcrPipeline.OCRPipeline.Routing | src/parsers/ocr_pipeline.py:157-163 | an existing input goes to PDF processing exactly when its suffix lower-cases to `.pdf`, and otherwise gives the image result as a single result |
| OcrPipeline.OCRPipeline.PageNumberIgnoredForImages | src/parsers/ocr_pipeline.py:159-163 | for a non-PDF input the page number makes no difference |
| OcrPipeline.OCRPipeline.ProcessImage | src/parsers/ocr_pipeline.py:52-84 | the result is `ImageOutcome` |
| OcrPipeline.OCRPipeline.ProcessPdf | src/parsers/ocr_pipeline.py:86-130 | the result of the conversion and page loop is `PdfOutcome` |
| OcrPipeline.OCRPipeline.Process | src/parsers/ocr_pipeline.py:132-163 | the result is `ProcessOutcome` |

## Left out

- Logging (every `logger` call) has no effect on results and is not modelled.
- The constructor arguments `tesseract_cmd` and `tessdata_prefix` are not modelled. They only set process-wide state (`pytesseract.tesseract_cmd`, `TESSDATA_PREFIX`).
- The statistics computed in `extract_data` (lines 149-154) are not modelled. They are only logged. Their `int(c)` conversions could raise on a non-integer confidence, and the model does not capture that.
- Confidences are given integers. The `int(data['conf'][i])` parse in the aggregator is not modelled.
- `avg_confidence` and `min_confidence` are exact `real`s, not IEEE floats.
- `str.lower`/`str.upper` are modelled on ASCII letters only. It matters only for `format` and for the `.pdf` suffix test.
- Paths are POSIX strings:
  - there is no normalisation of `//` or `./` inside a path, except that `Child` of `""` or `.` is the bare name;
  - there are no Windows separators;
  - `/` does not restart at an absolute name.
- The image engines, the rasterizer and `Image.open` are oracles in `Environment`.
- `Path.exists` is membership in `Environment.files`.
- PIL image contents are not modelled; only an image's identity is.
- PdfService.PDFToImageService.SaveImages: `mkdir` and the file writes are not performed. The method returns the list of `image.save` calls it would make, beside the paths.
- Exception messages are modelled by cause, not by text. `FileNotFoundError` records which check raised it and the path; `OCRError` records the step and the cause; `PDFConversionError` records the reason.
- Exceptions that the pipeline's `except`/`raise` blocks catch and re-raise unchanged are modelled as passing through. The same holds for any other exception type.
