/** The second version of PDFExtractorApp (v2.py): one region at a time,
    chosen by a press and a release; every release immediately crops that
    region, unscaled, from every page and collects {Page, Extracted Data}. */
module V2 {
  import opened Common
  import opened Text
  import opened Batch

  const NoAreaMessage := "Please select a region first!"

  /** One row of this version's table: {"Page", "Extracted Data"}; there
      is no region column. */
  datatype PageText = PageText(page: int, text: string)

  // ---------------------------------------------------------------------
  // What one run of extract_text_from_pdf does (v2.py:90-120)
  // ---------------------------------------------------------------------

  /** The first n pages, each cropped at the same area. */
  function PageCrops(n: nat, area: Rect): (crops: seq<Crop>)
    ensures |crops| == n
    ensures forall p :: 0 <= p < n ==> crops[p] == Crop(p, area)
  {
    seq(n, (p: int) requires 0 <= p < n => Crop(p, area))
  }

  /** The record for one crop: the page's 1-based number and the stripped
      text, when the raw OCR text is non-empty. */
  function TextOf(ocr: Crop -> OcrReply, c: Crop): Option<PageText>
  {
    var text := OcrText(ocr(c));
    if text != "" then Some(PageText(c.page + 1, Strip(text))) else None
  }

  /** TextOf for a fixed OCR engine. */
  function ReadPage(ocr: Crop -> OcrReply): Crop -> Option<PageText>
  {
    c => TextOf(ocr, c)
  }

  /** The crops handed to OCR: one per page, in page order. */
  function ExpectedCrops(images: seq<Size>, area: Option<Rect>): seq<Crop>
  {
    if area.None? then [] else PageCrops(|images|, area.value)
  }

  function ExpectedRecords(images: seq<Size>, area: Option<Rect>, ocr: Crop -> OcrReply): seq<PageText>
  {
    FilterMap(ReadPage(ocr), ExpectedCrops(images, area))
  }

  /** How the run ends. */
  function ExpectedOutcome(images: seq<Size>, area: Option<Rect>, ocr: Crop -> OcrReply): Outcome<PageText>
  {
    if area.None? then ShowError(NoAreaMessage)
    else
      var records := ExpectedRecords(images, area, ocr);
      if records == [] then ShowError(NoTextMessage) else Export(records)
  }

  /** Without a selected area nothing is cropped and no record is made. */
  lemma NoAreaNoWork(images: seq<Size>, ocr: Crop -> OcrReply)
    ensures ExpectedCrops(images, None) == [] && ExpectedRecords(images, None, ocr) == []
    ensures ExpectedOutcome(images, None, ocr) == ShowError(NoAreaMessage)
  {
    assert ExpectedCrops(images, None) == [];
  }

  /** At most one record per page. */
  lemma AtMostOnePerPage(images: seq<Size>, area: Option<Rect>, ocr: Crop -> OcrReply)
    ensures |ExpectedRecords(images, area, ocr)| <= |images|
  {
    PickedValues(ReadPage(ocr), ExpectedCrops(images, area));
  }

  /** Records name pages of the document, in strictly increasing order. */
  lemma PagesIncrease(images: seq<Size>, area: Option<Rect>, ocr: Crop -> OcrReply)
    ensures var recs := ExpectedRecords(images, area, ocr);
      (forall i :: 0 <= i < |recs| ==> 1 <= recs[i].page <= |images|)
      && forall i, j :: 0 <= i < j < |recs| ==> recs[i].page < recs[j].page
  {
    var crops := ExpectedCrops(images, area);
    FilterMapPicked(ReadPage(ocr), crops);
    var recs, at := ExpectedRecords(images, area, ocr), Picked(ReadPage(ocr), crops);
    assert forall i :: 0 <= i < |recs| ==> recs[i].page == at[i] + 1 by {
      forall i | 0 <= i < |recs| ensures recs[i].page == at[i] + 1 {
        assert crops[at[i]].page == at[i];
      }
    }
  }

  /** A record is produced exactly when some page's crop has non-empty raw
      OCR text; it holds that page's 1-based number and the stripped text. */
  lemma RecordMembership(images: seq<Size>, area: Rect, ocr: Crop -> OcrReply, rec: PageText)
    ensures rec in ExpectedRecords(images, Some(area), ocr)
        <==> exists p :: 0 <= p < |images| && OcrText(ocr(Crop(p, area))) != ""
               && rec == PageText(p + 1, Strip(OcrText(ocr(Crop(p, area)))))
  {
    var crops := ExpectedCrops(images, Some(area));
    FilterMapMembership(ReadPage(ocr), crops, rec);
    if rec in ExpectedRecords(images, Some(area), ocr) {
      var c :| c in crops && ReadPage(ocr)(c) == Some(rec);
      var p :| 0 <= p < |crops| && crops[p] == c;
      assert c == Crop(p, area);
    }
    if exists p :: 0 <= p < |images| && OcrText(ocr(Crop(p, area))) != ""
         && rec == PageText(p + 1, Strip(OcrText(ocr(Crop(p, area)))))
    {
      var p :| 0 <= p < |images| && OcrText(ocr(Crop(p, area))) != ""
         && rec == PageText(p + 1, Strip(OcrText(ocr(Crop(p, area)))));
      assert crops[p] == Crop(p, area);
      assert ReadPage(ocr)(crops[p]) == Some(rec);
    }
  }

  /** A page whose raw OCR text is only whitespace still gets a row, with
      an empty Extracted Data: the test is on the raw text, the stored text
      is stripped. */
  lemma BlankPageKeepsRow(images: seq<Size>, area: Rect, ocr: Crop -> OcrReply, p: nat)
    requires p < |images|
    requires var reply := ocr(Crop(p, area)); reply.Text? && reply.text != [] && AllSpace(reply.text)
    ensures PageText(p + 1, "") in ExpectedRecords(images, Some(area), ocr)
  {
    var text := OcrText(ocr(Crop(p, area)));
    WhitespaceOnlyStripsToEmpty(text);
    RecordMembership(images, area, ocr, PageText(p + 1, ""));
  }

  /** With an area selected, the run reports that no text was found
      exactly when every page's crop has empty OCR text. */
  lemma NoTextExactly(images: seq<Size>, area: Rect, ocr: Crop -> OcrReply)
    ensures ExpectedOutcome(images, Some(area), ocr) == ShowError(NoTextMessage)
        <==> forall p :: 0 <= p < |images| ==> OcrText(ocr(Crop(p, area))) == ""
  {
    var recs := ExpectedRecords(images, Some(area), ocr);
    if recs != [] {
      RecordMembership(images, area, ocr, recs[0]);
    }
    if exists p :: 0 <= p < |images| && OcrText(ocr(Crop(p, area))) != "" {
      var p :| 0 <= p < |images| && OcrText(ocr(Crop(p, area))) != "";
      RecordMembership(images, area, ocr, PageText(p + 1, Strip(OcrText(ocr(Crop(p, area))))));
    }
  }

  class PdfExtractorApp {
    /** Canvas id of the rubber-band rectangle, once a press drew one. */
    var rect: Option<int>
    var startX: Option<int>
    var startY: Option<int>
    /** The one region kept, as (start_x, start_y, x, y). */
    var selectedArea: Option<Rect>
    /** The page images, by size; [] stands for both None and an empty list. */
    var images: seq<Size>
    /** The id the canvas gives to the next item it creates. */
    var nextId: int

    ghost predicate Valid()
      reads this
    {
      (startX.Some? <==> startY.Some?)
      && nextId >= 1
      && (rect.Some? ==> 1 <= rect.value < nextId)
    }

    constructor ()
      ensures Valid()
      ensures rect == None && startX == None && startY == None && selectedArea == None && images == []
    {
      rect := None;
      startX, startY := None, None;
      selectedArea := None;
      images := [];
      nextId := 1;
    }

    /** load_pdf followed by display_pdf_page(0): the pages are replaced,
        the first one is shrunk in place to the size that fits the canvas
        (`fitted`) and shown, which creates one image item. Nothing catches
        an exception here: a failed conversion escapes and changes nothing,
        and a document without pages fails on `images[0]` after `images`
        was assigned. */
    method LoadPdf(result: LoadResult, fitted: Size) returns (error: Option<string>)
      requires Valid()
      modifies this`images, this`nextId
      ensures Valid()
      ensures result.LoadFailed? ==> error == Some(result.reason) && images == old(images) && nextId == old(nextId)
      ensures result.Converted? && result.pages == [] ==>
        error == Some("IndexError") && images == [] && nextId == old(nextId)
      ensures result.Converted? && result.pages != [] ==>
        error == None && images == result.pages[0 := fitted] && nextId == old(nextId) + 1
    {
      match result
      case LoadFailed(reason) =>
        return Some(reason);
      case Converted(pages) =>
        images := pages;
        if images == [] {
          return Some("IndexError");
        }
        images := images[0 := fitted];
        nextId := nextId + 1;
        error := None;
    }

    /** on_button_press: remember where the gesture started and draw a
        fresh rubber-band rectangle (the previous one is deleted from the
        canvas). */
    method OnButtonPress(x: int, y: int)
      requires Valid()
      modifies this`startX, this`startY, this`rect, this`nextId
      ensures Valid()
      ensures startX == Some(x) && startY == Some(y)
      ensures rect == Some(old(nextId)) && nextId == old(nextId) + 1
    {
      startX := Some(x);
      startY := Some(y);
      rect := Some(nextId);
      nextId := nextId + 1;
    }

    /** on_button_release: the area (start_x, start_y, x, y) replaces any
        earlier one, and extraction runs at once with it; since a tuple is
        always truthy, that run never asks for a region. */
    method OnButtonRelease(x: int, y: int, ocr: Crop -> OcrReply) returns (outcome: Outcome<PageText>, crops: seq<Crop>)
      requires Valid() && startX.Some? && startY.Some?
      modifies this`selectedArea
      ensures Valid()
      ensures selectedArea == Some(Rect(old(startX).value, old(startY).value, x, y))
      ensures outcome == ExpectedOutcome(images, selectedArea, ocr)
      ensures crops == ExpectedCrops(images, selectedArea)
      ensures outcome != ShowError(NoAreaMessage)
    {
      selectedArea := Some(Rect(startX.value, startY.value, x, y));
      outcome, crops := ExtractTextFromPdf(ocr);
    }

    /** extract_text_from_pdf: the selected area cropped from every page,
        in page order. It returns how the run ends and the crops handed to
        OCR. */
    method ExtractTextFromPdf(ocr: Crop -> OcrReply) returns (outcome: Outcome<PageText>, crops: seq<Crop>)
      ensures outcome == ExpectedOutcome(images, selectedArea, ocr)
      ensures crops == ExpectedCrops(images, selectedArea)
    {
      crops := [];
      if selectedArea.None? {
        return ShowError(NoAreaMessage), crops;
      }
      var extracted: seq<PageText> := [];
      var area := selectedArea.value;
      var pageNum := 0;
      while pageNum < |images|
        invariant 0 <= pageNum <= |images|
        invariant crops == PageCrops(pageNum, area)
        invariant extracted == FilterMap(ReadPage(ocr), crops)
      {
        var c := Crop(pageNum, area);
        FilterMapStep(ReadPage(ocr), crops, c);
        assert crops + [c] == PageCrops(pageNum + 1, area);
        crops := crops + [c];
        var text := OcrText(ocr(c));
        if text != "" {
          extracted := extracted + [PageText(pageNum + 1, Strip(text))];
        }
        pageNum := pageNum + 1;
      }
      if extracted != [] {
        outcome := Export(extracted);
      } else {
        outcome := ShowError(NoTextMessage);
      }
    }
  }
}
