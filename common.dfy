/** Types shared by the three versions of the PDF region extractor:
    rectangles as the application stores them, page sizes, the crop handed
    to the OCR engine, the OCR engine's reply, and the outcome of a batch run. */
module Common {

  datatype Option<+T> = None | Some(value: T)

  /** A rectangle exactly as the application stores it: the tuple
      (x0, y0, x1, y1). It is never normalised, so x0 may exceed x1. */
  datatype Rect = Rect(x0: int, y0: int, x1: int, y1: int)

  /** Pixel dimensions of a page image or of the resized copy on the canvas. */
  datatype Size = Size(width: nat, height: nat)

  /** What is handed to the OCR engine: the crop of page `page` (0-based)
      at the box `box`, in that page's own pixel coordinates. */
  datatype Crop = Crop(page: nat, box: Rect)

  /** The OCR engine's answer for one crop: a string, or an exception. */
  datatype OcrReply = Text(text: string) | Failed(reason: string)

  /** The rasteriser's answer for a document: the page images (only their
      sizes matter here), or an exception. */
  datatype LoadResult = Converted(pages: seq<Size>) | LoadFailed(reason: string)

  /** One row of the exported table: {"Page", "Extracted Data", "Region"}. */
  datatype Record = Record(page: int, text: string, region: Rect)

  /** How a batch run ends: an error dialog, a call of export_to_excel with
      the collected records, or an exception that escapes the handler. */
  datatype Outcome<R> = ShowError(message: string) | Export(records: seq<R>) | Crash(exception: string)

  const NoRegionMessage := "Please select at least one region!"
  const NoTextMessage := "No text found in the selected area on any page!"

  /** extract_text_from_image: the OCR text, or "" when the engine raised. */
  function OcrText(reply: OcrReply): (s: string)
    ensures reply.Failed? ==> s == ""
    ensures reply.Text? ==> s == reply.text
  {
    match reply
    case Text(t) => t
    case Failed(_) => ""
  }
}
