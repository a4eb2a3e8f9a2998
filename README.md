# PDF region extractor — a Dafny model

`PDFExtractorApp` is a Tkinter tool that shows a PDF page on a canvas. The
user drags rectangles on it. The tool crops those rectangles from every page,
runs OCR (Tesseract) on each crop, and exports the non-empty results to an
Excel table of `{Page, Extracted Data, Region}` rows. The repository keeps
three successive versions of the application, `v2.py`, `v3.py` and `v4.py`.
This project models the core each of them shares:

- **The selection session.** The press, drag and release handlers change the
  application's fields. v4 also has page navigation; every version's
  `load_pdf` is modelled. Each
  version is a Dafny `class PdfExtractorApp` whose fields mirror the Python
  fields. It has one method per handler and a `Valid()` invariant that every
  handler keeps. Tk canvas item ids come from one counter that starts at 1.
- **The batch extraction loop.** It runs page-major and region-minor, and
  appends a record only when the raw OCR text is non-empty. Each version has
  an imperative method with the loop and its invariants. That method is
  proved equal to pure specification functions: `ExpectedCrops` (what is
  handed to OCR), `ExpectedRecords` (what is exported) and `ExpectedOutcome`
  (error dialog, export or escaping exception). The properties are then
  proved as lemmas about those functions.
- **v4's coordinate scaling.** `int(c * page / display)` is computed exactly,
  with truncation toward zero.
- **v4's threshold map.** The lambda used before OCR, `0 if x < 128 else 255`.

Layout:

- `common.dfy` (module `Common`): shared types (`Rect`, `Size`, `Crop`,
  `OcrReply`, `Record`, `Outcome`), the two dialog messages, and `OcrText`.
  `OcrText` is the `try`/`except` of `extract_text_from_image`, which turns
  an OCR exception into `""`.
- `text.dfy` (module `Text`): Python's `str.strip()`, which removes the
  `isspace` characters, with its specification proved.
- `batch.dfy` (module `Batch`): the shape of the nested loop as the function
  `Collect(pages, regions, cell)`, and the filter step as `FilterMap`, with
  generic lemmas about order, membership, counts and positions.
- `v4.dfy`, `v3.dfy`, `v2.dfy` (modules `V4`, `V3`, `V2`): one module per
  version of the application.

The OCR engine is a function parameter, `ocr: Crop -> OcrReply`. A crop is
the pair (0-based page index, box in that page's pixels). The PDF
rasteriser's answer is a `LoadResult` parameter. The canvas's reports
(`winfo_*` after `thumbnail`, `canvas.coords`) are also parameters.

The model follows the code in these points:

- **Scaling truncates.** v4 scales with `int(...)`, which truncates toward
  zero; it does not round.
- **Whitespace-only OCR text keeps its record.** The test is `if text:` on
  the raw text, so whitespace-only output still yields a record, with empty
  `Extracted Data` (`V4.BlankTextKeepsRecord`, `V2.BlankPageKeepsRow`).
- **An unusable display is an escaping exception.** If the displayed copy is
  missing or has zero size, v4 raises `AttributeError` or
  `ZeroDivisionError`, which is not caught. The model gives these as
  `Crash` outcomes, not as a handled "viewport not ready" error.
- **v4's `load_pdf` keeps the stored regions.** They are redrawn on the new
  document, and their ids are appended to `rectangle_ids`.

## Model

| member | source | states |
|---|---|---|
| Common.OcrText | v4.py:158-171 | an OCR exception yields "" and a reply yields its text unchanged |
| Text.Strip | v4.py:144 | `text.strip()`: cut the `isspace` characters from both ends; specified by Text.StripSpec and Text.StripCount |
| Text.LeadingSpace | v4.py:144 | counts exactly the whitespace prefix: all of it is whitespace and the next character is not |
| Text.TrailingSpace | v4.py:144 | counts exactly the whitespace suffix |
| Text.StripStartCount | v4.py:144 | stripping the left end drops exactly the leading whitespace |
| Text.StripEndCount | v4.py:144 | stripping the right end drops exactly the trailing whitespace |
| Text.StripCount | v4.py:144 | `strip()` is the slice between the leading and the trailing whitespace, or empty when all of it is whitespace |
| Text.StripSpec | v4.py:144 | `strip()` is a slice of its input with whitespace-only ends, neither starts nor ends with whitespace, and is empty exactly when the input is all whitespace |
| Text.StripIdempotent | v4.py:144 | stripping twice equals stripping once |
| Text.WhitespaceOnlyStripsToEmpty | v4.py:143-144 | a non-empty whitespace-only string, which passes `if text:`, strips to "" |
| Batch.FilterMapStep | v4.py:143-144 | one more candidate appends its record when it yields one, and nothing otherwise |
| Batch.FilterMapAppend | v4.py:126-144 | filtering the candidates of two stretches of the loop concatenates their records |
| Batch.PickedValues | v4.py:143-144 | every kept value comes from a distinct candidate, so there are no more records than candidates |
| Batch.PickedSorted | v4.py:143-144 | the kept candidates are taken in their original order |
| Batch.PickedComplete | v4.py:143-144 | every candidate that yields a value is kept |
| Batch.FilterMapPicked | v4.py:143-144 | the records are exactly the values of the yielding candidates, in candidate order |
| Batch.FilterMapMembership | v4.py:143-144 | a record is present if and only if some candidate yields it |
| Batch.RecordOf | v4.py:141-144 | the record one crop yields: none when the raw OCR text is empty, else page + 1, the stripped text and the box; specified by Batch.RecordOfSome |
| Batch.RecordOfSome | v4.py:141-144 | a record comes from non-empty raw text, stores the stripped text and the crop's page + 1 and box |
| Batch.CountWhere | v3.py:103-105 | the number of regions passing a test is at most the number of regions |
| Batch.RowStep | v4.py:127 | one more region of a page appends that region's value, if any |
| Batch.RowOrder | v4.py:127-144 | a page's values come from that page, in increasing region order, and every yielding region is among them |
| Batch.CollectOrigins | v4.py:126-144 | each collected value comes from a (page, region) cell in range that yields it |
| Batch.CollectSorted | v4.py:126-127 | collected values are in page-major, region-minor order |
| Batch.CollectComplete | v4.py:126-127 | every (page, region) cell that yields a value contributes it |
| Batch.CollectOrder | v4.py:126-127 | combines origins, order and completeness of the nested loop |
| Batch.CollectMembership | v4.py:126-144 | a value is collected if and only if some cell in range yields it |
| Batch.RowCount | v3.py:103-105 | a page contributes as many values as regions pass the test |
| Batch.CollectCount | v3.py:102-105 | the loop yields pages × (regions passing the test) values |
| Batch.CountAll | v4.py:127 | when every region passes, the count is the number of regions |
| Batch.CountNone | v3.py:105 | when no region passes, the count is 0 |
| Batch.CollectIndex | v4.py:126-127 | when every cell yields, cell (p, r) is the p × regions + r-th value |
| Batch.RowIndex | v4.py:127 | when every region yields, region r is the r-th value of its page |
| Batch.CollectPrefix | v4.py:126 | the first p pages' values are a prefix of the whole output |
| V4.TruncDiv | v4.py:132-135 | Python's `int()` of the exact quotient, rounding toward zero; specified by V4.TruncDivSpec and V4.TruncDivUnique |
| V4.ScaleCoord | v4.py:130-135 | `int(c * page / display)` for one coordinate; its properties are V4.ScaleIdentity, V4.ScaleByFactor, V4.ScaleOdd and V4.ScaleMonotone |
| V4.ScaleRect | v4.py:130-135 | x coordinates scaled by the widths, y coordinates by the heights, the tuple left unnormalised; the same displayed size serves every page |
| V4.TruncDivSpec | v4.py:132-135 | `int()` of an exact quotient: its magnitude is how often the divisor fits in the dividend's magnitude, and it has the dividend's sign |
| V4.TruncDivUnique | v4.py:132-135 | any number with that magnitude and sign is the truncated quotient |
| V4.ScaleIdentity | v4.py:130-135 | equal page and display sizes leave every coordinate unchanged |
| V4.ScaleByFactor | v4.py:130-135 | a page exactly k times the displayed copy multiplies each coordinate by k |
| V4.ScaleOdd | v4.py:132-135 | truncation toward zero makes a negative coordinate scale to the mirror of the positive one |
| V4.ScaleMonotone | v4.py:130-135 | scaling preserves the order of coordinates |
| V4.TruncDivMonotone | v4.py:132-135 | truncating division by a positive number preserves order |
| V4.Threshold | v4.py:164 | `lambda x: 0 if x < 128 else 255` on one grey value |
| V4.Binarize | v4.py:164 | each grey value below 128 becomes 0 and every other value becomes 255, length unchanged |
| V4.BinarizeIdempotent | v4.py:164 | thresholding a thresholded image changes nothing |
| V4.BinarizeMonotone | v4.py:164 | a darker pixel never comes out lighter than a lighter one |
| V4.CropCell | v4.py:126-138 | the crop for page p and region r: region r scaled with page p's size and the displayed copy's size |
| V4.ExpectedCrops | v4.py:119-138 | the crops handed to OCR: none without regions or a usable display, else every (page, region) cell in page-major, region-minor order; specified by V4.CropOrder, V4.CropSource and V4.CropsPageOrder |
| V4.ExpectedRecords | v4.py:126-144 | the records those crops yield, in crop order; specified by V4.RecordMembership, V4.RecordsBound and V4.RecordsFollowCrops |
| V4.ExpectedOutcome | v4.py:119-156 | the region error, the uncaught AttributeError or ZeroDivisionError, the "No text found" error, or export of the records; specified by V4.NoRegionNoWork and V4.NoTextExactly |
| V4.NoRegionNoWork | v4.py:120-122 | without regions nothing is cropped or recognised and the run asks for a region |
| V4.CellStep | v4.py:127-138 | the crop of region r on page p is the region scaled by page p's size and the displayed copy's size |
| V4.CropOrder | v4.py:126-138 | there are exactly pages × regions crops, and crop p × regions + r is region r scaled for page p |
| V4.CropsPageOrder | v4.py:126-127 | crops name pages of the document, in non-decreasing page order |
| V4.RecordsBound | v4.py:126-144 | at most pages × regions records |
| V4.RecordsInPageOrder | v4.py:126-144 | `Page` lies in 1..pages and never decreases along the records |
| V4.RecordsFollowCrops | v4.py:126-144 | the i-th record is the one made for a (page, region) pair, and those pairs strictly increase in page-major, region-minor order |
| V4.RecognizedPages | v4.py:141-144 | records taken from crops in page order are in page order, with `Page` the 1-based number |
| V4.CropSource | v4.py:126-138 | every crop is some region scaled for some page |
| V4.RecordCrop | v4.py:141-144 | every record comes from one crop handed to OCR |
| V4.RecordSource | v4.py:126-144 | every record comes from a page and region whose crop has non-empty raw text, and carries `Page = page + 1`, the stripped text and the scaled box as `Region` |
| V4.RecordOfCrop | v4.py:126-144 | every page and region whose crop has non-empty raw text yields that record |
| V4.RecordMembership | v4.py:126-144 | a record is exported if and only if some page and region produce it |
| V4.BlankTextKeepsRecord | v4.py:143-144 | whitespace-only OCR text still yields a record, with empty text |
| V4.NoTextExactly | v4.py:148-156 | past the checks, the "No text found" error appears if and only if every crop's OCR text is empty or raised |
| V4.TwoPageScenario | v4.py:126-154 | a concrete run: one region on a two-page document at twice the displayed size gives two crops and two records in page order |
| V4.IdRange | v4.py:80-81 | the ids handed out next are consecutive from the counter |
| V4.PdfExtractorApp.constructor | v4.py:31-39 | no regions, no ids, no start point, no pages, page 0, no displayed copy |
| V4.PdfExtractorApp.LoadPdf | v4.py:48-55 | a conversion replaces the pages and goes back to page 0 and shows it, keeping the regions; a failure reports "Failed to load PDF: …" and changes nothing |
| V4.PdfExtractorApp.DisplayPdfPage | v4.py:57-86 | with pages, the fitted copy becomes the displayed one and one new id per stored region is appended; without pages nothing changes |
| V4.PdfExtractorApp.OnButtonPress | v4.py:88-91 | the start point becomes the event position |
| V4.PdfExtractorApp.OnMouseDrag | v4.py:93-97 | one fresh id is appended to `rectangle_ids`; the stored regions do not change |
| V4.PdfExtractorApp.OnButtonRelease | v4.py:99-102 | exactly (start_x, start_y, x, y), not normalised, is appended to the end of the regions; earlier ones are unchanged |
| V4.PdfExtractorApp.PrevPage | v4.py:105-110 | with pages and not on the first page, it steps back, clears regions and ids, and redraws; otherwise nothing changes; the page stays in range |
| V4.PdfExtractorApp.NextPage | v4.py:112-117 | before the last page, it steps forward, clears regions and ids, and redraws; otherwise nothing changes; the page stays in range |
| V4.PdfExtractorApp.ExtractPage | v4.py:127-144 | one page's crops are its row of the specification, and its records are those crops filtered |
| V4.PdfExtractorApp.ExtractAndExport | v4.py:119-156 | the outcome and the crops handed to OCR are those of the specification functions |
| V3.EntryCell | v3.py:102-108 | the crop for page p and entry r: the stored 4-tuple, unscaled, or nothing for a canvas id |
| V3.ExpectedCrops | v3.py:92-108 | the crops handed to OCR: none without entries, else every (page, 4-tuple) pair in page-major, entry-minor order; specified by V3.CropsCount, V3.CropSource and V3.TupleCropped |
| V3.ExpectedRecords | v3.py:102-115 | the records those crops yield, in crop order; specified by V3.RecordSource, V3.RecordOfTuple and V3.RecordsFollowEntries |
| V3.ExpectedOutcome | v3.py:92-127 | the region error, the "No text found" error, or export of the records; specified by V3.NoRegionNoWork and V3.NoTextExactly |
| V3.TupleStep | v3.py:103-108 | one more 4-tuple entry appends its crop, unscaled, on that page |
| V3.IdStep | v3.py:103-105 | one more canvas-id entry appends nothing |
| V3.NoRegionNoWork | v3.py:94-96 | without entries nothing is cropped or recognised and the run asks for a region |
| V3.CropsCount | v3.py:102-115 | exactly pages × (number of 4-tuple entries) crops, and at most that many records |
| V3.OnlyIdsFindNothing | v3.py:103-127 | a non-empty list of canvas ids only crops nothing and ends in "No text found" |
| V3.CropSource | v3.py:102-108 | every crop is a stored 4-tuple, unscaled, on a page of the document |
| V3.RecordCrop | v3.py:111-115 | every record comes from one crop handed to OCR |
| V3.RecordSource | v3.py:102-115 | every record names a page in 1..pages, carries a stored 4-tuple as `Region`, and holds the stripped non-empty raw text of that crop |
| V3.TupleCropped | v3.py:102-108 | every stored 4-tuple is cropped on every page |
| V3.RecordOfTuple | v3.py:102-115 | every page and 4-tuple whose crop has non-empty raw text yields that record |
| V3.RecordsInPageOrder | v3.py:102-115 | records are in non-decreasing page order |
| V3.RecordsFollowEntries | v3.py:102-115 | the i-th record is the one made for a (page, 4-tuple entry) pair, and those pairs strictly increase in page-major, entry-minor order |
| V3.CropsPageOrder | v3.py:102-108 | crops are in non-decreasing page order |
| V3.NoTextExactly | v3.py:119-127 | with entries, "No text found" appears if and only if no 4-tuple has OCR text on any page |
| V3.PdfExtractorApp.constructor | v3.py:24-29 | no entries, no start point, no pages |
| V3.PdfExtractorApp.LoadPdf | v3.py:38-63 | a conversion replaces the pages, shrinks page 0 in place to the fitted size and creates one image item; a document without pages fails with IndexError; a failed conversion changes nothing |
| V3.PdfExtractorApp.OnButtonPress | v3.py:70-73 | the start point becomes the event position |
| V3.PdfExtractorApp.OnMouseDrag | v3.py:75-79 | each motion appends one fresh canvas id; no entry is removed or changed |
| V3.PdfExtractorApp.OnButtonRelease | v3.py:81-90 | with four coordinates only the last entry is overwritten by that 4-tuple, otherwise nothing changes; an empty list raises IndexError; the length never changes |
| V3.PdfExtractorApp.ExtractPage | v3.py:103-117 | one page's crops are its row of the specification, canvas ids skipped, and its records are those crops filtered |
| V3.PdfExtractorApp.ExtractAndExport | v3.py:92-127 | the outcome and the crops handed to OCR are those of the specification functions |
| V2.PageCrops | v2.py:100-104 | one crop per page, in page order, all at the same unscaled area |
| V2.TextOf | v2.py:106-110 | the row one page's crop yields: none when the raw OCR text is empty, else page + 1 and the stripped text; specified by V2.RecordMembership |
| V2.ExpectedCrops | v2.py:92-104 | the crops handed to OCR: none without an area, else the area on every page in page order |
| V2.ExpectedRecords | v2.py:100-110 | the rows those crops yield, in page order; specified by V2.RecordMembership, V2.AtMostOnePerPage and V2.PagesIncrease |
| V2.ExpectedOutcome | v2.py:90-120 | the "select a region first" error, the "No text found" error, or export of the rows; specified by V2.NoAreaNoWork and V2.NoTextExactly |
| V2.NoAreaNoWork | v2.py:92-94 | without a selected area nothing is cropped or recognised and the run asks for a region |
| V2.AtMostOnePerPage | v2.py:101-110 | at most one record per page |
| V2.PagesIncrease | v2.py:101-110 | `Page` lies in 1..pages and strictly increases along the records |
| V2.RecordMembership | v2.py:101-110 | a record is produced if and only if some page's crop has non-empty raw text; it holds that page's number and the stripped text |
| V2.BlankPageKeepsRow | v2.py:108-110 | a page whose OCR text is only whitespace still gets a row, with empty text |
| V2.NoTextExactly | v2.py:112-120 | with an area, "No text found" appears if and only if every page's crop has empty OCR text |
| V2.PdfExtractorApp.constructor | v2.py:20-26 | no rectangle, no start point, no area, no pages |
| V2.PdfExtractorApp.LoadPdf | v2.py:35-63 | a conversion replaces the pages, shrinks page 0 in place to the fitted size and creates one image item; a document without pages fails with IndexError; a failed conversion changes nothing |
| V2.PdfExtractorApp.OnButtonPress | v2.py:67-73 | the start point becomes the event position and a fresh rubber-band rectangle id is drawn |
| V2.PdfExtractorApp.OnButtonRelease | v2.py:79-88 | the area becomes (start_x, start_y, x, y), replacing any earlier one; extraction runs at once and never asks for a region |
| V2.PdfExtractorApp.ExtractTextFromPdf | v2.py:90-120 | the outcome and the crops handed to OCR are those of the specification functions |

## Left out

- The Tk widgets, the canvas drawing and deletion, event binding and the
  main loop are left out. Only the id counter, the id lists and the stored
  entries are kept.
- `open_pdf`'s file dialog is left out; loading starts from the rasteriser's
  answer.
- The message boxes and `print` logging are left out. Dialogs become
  `Outcome` values.
- The `pdf2image` rasteriser is left out. Pages are reduced to their sizes.
- PIL's `thumbnail`, `crop`, `convert("L")` and `PhotoImage` are left out.
  The fitted size is a parameter, and a crop is the pair (page, box) handed
  to OCR.
- The model assumes `image.crop` never raises. v4 and v2 store the box
  unnormalised, so a drag to the left or upwards reaches `crop` with
  x1 < x0 or y1 < y0 (v4.py:138, v2.py:103). Recent Pillow versions reject
  such a box with ValueError. That call is outside the `try` of
  `extract_text_from_image`, so the exception would escape the handler,
  while the model exports as usual.
- `pytesseract` is a function parameter.
- `export_to_excel` (pandas, the save dialog, the file write and its own
  error dialog) is left out. The model stops at the record sequence handed
  to it.
- V4.ScaleCoord: computes `int(c * page / display)` exactly. The source
  multiplies by a floating-point ratio, and its rounding can differ by one
  pixel near an integer.
- V3.PdfExtractorApp.OnButtonRelease: `canvas.coords` is a parameter
  holding integers. Tk reports floats, and it reports nothing for an entry
  that is already a tuple.
- `images = None` before the first load is modelled as an empty page list.
  No run reads `None` where that makes a difference. The Extract button
  works before any load, but `extract_and_export` returns on an empty
  `rectangles` before it reads `images` (v4.py:120, v3.py:94). The regions
  only fill through the canvas handlers, and those are bound in
  `display_pdf_page`. v4's `prev_page` and `next_page` test `images` for
  truthiness, where `None` and `[]` behave alike (v4.py:106, v4.py:113).
  v2 extracts only from `on_button_release`, which is bound in
  `display_pdf_page`.
- V4.PdfExtractorApp.ExtractAndExport: checks the displayed copy once per
  page, before its regions, rather than once per region. It gives the same
  outcome because the region list is not empty there. v4's
  `isinstance(rect, tuple)` test always holds for the tuples that
  `on_button_release` stores, so the model has no skip branch.
- The drag handlers of v3 and v4, and the release handlers of v4 and v2,
  require a start point. Tk only delivers these events after a press on the
  canvas. v3's release handler reads the canvas item's coordinates, not the
  start point, so it has no such requirement.
- v2's `on_mouse_drag` only moves the rubber-band rectangle on the canvas. It
  changes no modelled field, so it has no method.
- The `current_page` field of v2 and v3 is never read or changed after
  `__init__`, so it is not a field of those classes.
- The greyscale threshold is modelled as a pure map over grey values,
  `V4.Binarize`. Its image conversion is not modelled.
