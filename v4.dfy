/** The fourth version of PDFExtractorApp (v4.py): several regions drawn on
    the displayed page, page navigation that discards them, regions scaled
    from the displayed copy back to each page's own pixels, and a grey-level
    threshold before OCR. */
module V4 {
  import opened Common
  import opened Text
  import opened Batch

  const LoadErrorPrefix := "Failed to load PDF: "

  // ---------------------------------------------------------------------
  // Scaling from display space to a page's pixels (v4.py:129-135)
  // ---------------------------------------------------------------------

  function Abs(x: int): nat
  {
    if x < 0 then -x else x
  }

  /** Python's `int()` applied to the exact quotient a / b: it rounds toward
      zero, whereas Dafny's `/` rounds down. */
  function TruncDiv(a: int, b: int): int
    requires b > 0
  {
    if a >= 0 then a / b else -((-a) / b)
  }

  /** What truncation promises: the magnitude of the quotient is the whole
      number of times b fits in |a|, and it has the sign of a. */
  lemma TruncDivSpec(a: int, b: int)
    requires b > 0
    ensures var q := TruncDiv(a, b);
      Abs(q) * b <= Abs(a) < (Abs(q) + 1) * b
      && (a >= 0 ==> q >= 0) && (a <= 0 ==> q <= 0)
  {
    var m := Abs(a) / b;
    DivBounds(Abs(a), b);
    assert Abs(TruncDiv(a, b)) == m;
  }

  /** Euclidean division of naturals: n / d whole copies of d fit in n. */
  lemma DivBounds(n: nat, d: nat)
    requires d > 0
    ensures (n / d) * d <= n < (n / d + 1) * d
  {
    assert (n / d + 1) * d == (n / d) * d + d;
  }

  /** `int(c * native / display)`, computed exactly rather than in floats. */
  function ScaleCoord(c: int, native: nat, display: nat): int
    requires display > 0
  {
    TruncDiv(c * native, display)
  }

  /** The box cropped from a page of size `page` for a region drawn on the
      displayed copy of size `display`: x coordinates scale by the widths,
      y coordinates by the heights, and the result is not normalised. */
  function ScaleRect(r: Rect, page: Size, display: Size): Rect
    requires display.width > 0 && display.height > 0
  {
    Rect(ScaleCoord(r.x0, page.width, display.width), ScaleCoord(r.y0, page.height, display.height),
         ScaleCoord(r.x1, page.width, display.width), ScaleCoord(r.y1, page.height, display.height))
  }

  /** Any q with the magnitude and sign TruncDiv promises is TruncDiv's result. */
  lemma TruncDivUnique(a: int, b: int, q: int)
    requires b > 0
    requires Abs(q) * b <= Abs(a) < (Abs(q) + 1) * b
    requires (a >= 0 ==> q >= 0) && (a <= 0 ==> q <= 0)
    ensures TruncDiv(a, b) == q
  {
    var t := TruncDiv(a, b);
    TruncDivSpec(a, b);
    if Abs(t) < Abs(q) {
      MulMonotone(Abs(t) + 1, Abs(q), b);
    } else if Abs(q) < Abs(t) {
      MulMonotone(Abs(q) + 1, Abs(t), b);
    }
  }

  /** Equal native and display sizes leave every coordinate unchanged. */
  lemma ScaleIdentity(r: Rect, size: Size)
    requires size.width > 0 && size.height > 0
    ensures ScaleRect(r, size, size) == r
  {
    ScaleByFactor(r.x0, 1, size.width);
    ScaleByFactor(r.x1, 1, size.width);
    ScaleByFactor(r.y0, 1, size.height);
    ScaleByFactor(r.y1, 1, size.height);
  }

  /** When the page is exactly k times the displayed copy, a coordinate
      is multiplied by k with no truncation error. */
  lemma ScaleByFactor(c: int, k: nat, display: nat)
    requires display > 0
    ensures ScaleCoord(c, k * display, display) == k * c
  {
    assert c * (k * display) == (k * c) * display;
    assert Abs((k * c) * display) == Abs(k * c) * display;
    TruncDivUnique(c * (k * display), display, k * c);
  }

  /** Truncation is symmetric about zero: a region dragged to negative
      coordinates (left of or above the canvas) scales to the mirror image
      of the positive one. */
  lemma ScaleOdd(c: int, native: nat, display: nat)
    requires display > 0
    ensures ScaleCoord(-c, native, display) == -ScaleCoord(c, native, display)
  {
    assert -c * native == -(c * native);
  }

  /** Scaling preserves the order of coordinates. */
  lemma ScaleMonotone(c: int, d: int, native: nat, display: nat)
    requires display > 0 && c <= d
    ensures ScaleCoord(c, native, display) <= ScaleCoord(d, native, display)
  {
    MulMonotone(c, d, native);
    TruncDivMonotone(c * native, d * native, display);
  }

  lemma TruncDivMonotone(a: int, b: int, d: nat)
    requires d > 0 && a <= b
    ensures TruncDiv(a, d) <= TruncDiv(b, d)
  {
    if 0 <= a {
      assert TruncDiv(a, d) == a / d && TruncDiv(b, d) == b / d;
      DivMonotone(a, b, d);
    } else if b < 0 {
      assert TruncDiv(a, d) == -((-a) / d) && TruncDiv(b, d) == -((-b) / d);
      DivMonotone(-b, -a, d);
    } else {
      DivMonotone(0, -a, d);
      DivMonotone(0, b, d);
    }
  }

  lemma DivMonotone(a: nat, b: nat, d: nat)
    requires d > 0 && a <= b
    ensures a / d <= b / d
  {
    if b / d < a / d {
      MulMonotone(b / d + 1, a / d, d);
    }
  }

  // ---------------------------------------------------------------------
  // Thresholding before OCR (v4.py:160-164)
  // ---------------------------------------------------------------------

  type Gray = x: int | 0 <= x < 256

  /** `lambda x: 0 if x < 128 else 255` */
  function Threshold(x: Gray): Gray
  {
    if x < 128 then 0 else 255
  }

  /** `image.point(...)` over the grey values of a crop, pixel by pixel. */
  function Binarize(pixels: seq<Gray>): (out: seq<Gray>)
    ensures |out| == |pixels|
    ensures forall i :: 0 <= i < |pixels| ==> (out[i] == 0 <==> pixels[i] < 128) && (out[i] == 255 <==> pixels[i] >= 128)
  {
    seq(|pixels|, i requires 0 <= i < |pixels| => Threshold(pixels[i]))
  }

  /** Thresholding an already two-level image changes nothing. */
  lemma BinarizeIdempotent(pixels: seq<Gray>)
    ensures Binarize(Binarize(pixels)) == Binarize(pixels)
  {
    var once := Binarize(pixels);
    assert forall i :: 0 <= i < |once| ==> Binarize(once)[i] == once[i];
  }

  /** A darker pixel never comes out lighter than a lighter one. */
  lemma BinarizeMonotone(pixels: seq<Gray>, i: nat, j: nat)
    requires i < |pixels| && j < |pixels| && pixels[i] <= pixels[j]
    ensures Binarize(pixels)[i] <= Binarize(pixels)[j]
  {
  }

  // ---------------------------------------------------------------------
  // What one run of extract_and_export does (v4.py:119-156)
  // ---------------------------------------------------------------------

  /** The displayed copy exists and has a non-zero size, so scale_x and
      scale_y can be computed. */
  predicate Ready(display: Option<Size>)
  {
    display.Some? && display.value.width > 0 && display.value.height > 0
  }

  /** The crop taken for page p and region r: the region scaled with that
      page's size but always the displayed copy's size. */
  function CropCell(images: seq<Size>, rects: seq<Rect>, display: Size): (nat, nat) -> Option<Crop>
    requires display.width > 0 && display.height > 0
  {
    (p: nat, r: nat) =>
      if p < |images| && r < |rects| then Some(Crop(p, ScaleRect(rects[r], images[p], display))) else None
  }

  /** The crops handed to OCR, in the order the loop takes them. */
  function ExpectedCrops(images: seq<Size>, rects: seq<Rect>, display: Option<Size>): seq<Crop>
  {
    if rects == [] || !Ready(display) then []
    else Collect(|images|, |rects|, CropCell(images, rects, display.value))
  }

  /** How the run ends. */
  function ExpectedOutcome(images: seq<Size>, rects: seq<Rect>, display: Option<Size>, ocr: Crop -> OcrReply): Outcome<Record>
  {
    if rects == [] then ShowError(NoRegionMessage)
    else if images == [] then ShowError(NoTextMessage)
    else if display.None? then Crash("AttributeError")
    else if !Ready(display) then Crash("ZeroDivisionError")
    else
      var records := ExpectedRecords(images, rects, display, ocr);
      if records == [] then ShowError(NoTextMessage) else Export(records)
  }

  /** The records collected from those crops: one per crop whose raw OCR
      text is non-empty, holding the stripped text. */
  function ExpectedRecords(images: seq<Size>, rects: seq<Rect>, display: Option<Size>, ocr: Crop -> OcrReply): seq<Record>
  {
    FilterMap(Recognize(ocr), ExpectedCrops(images, rects, display))
  }

  /** Without regions nothing is cropped, nothing is recognised and the
      run asks for a region, whatever else holds. */
  lemma NoRegionNoWork(images: seq<Size>, display: Option<Size>, ocr: Crop -> OcrReply)
    ensures ExpectedCrops(images, [], display) == [] && ExpectedRecords(images, [], display, ocr) == []
    ensures ExpectedOutcome(images, [], display, ocr) == ShowError(NoRegionMessage)
  {
    assert ExpectedCrops(images, [], display) == [];
  }

  /** One iteration of the inner loop, as the specification sees it: the
      crop of (p, r) is appended to the candidates. */
  lemma CellStep(images: seq<Size>, rects: seq<Rect>, display: Size, p: nat, r: nat)
    requires display.width > 0 && display.height > 0 && p < |images| && r < |rects|
    ensures Row(p, r + 1, CropCell(images, rects, display))
            == Row(p, r, CropCell(images, rects, display)) + [Crop(p, ScaleRect(rects[r], images[p], display))]
  {
    RowStep(p, r, CropCell(images, rects, display));
  }

  /** Every (page, region) pair is cropped, and the crop for page p and
      region r is the p * |rects| + r-th one: page-major, region-minor. */
  lemma CropOrder(images: seq<Size>, rects: seq<Rect>, display: Size, p: nat, r: nat)
    requires display.width > 0 && display.height > 0 && p < |images| && r < |rects|
    ensures p * |rects| + r < |images| * |rects|
    ensures |ExpectedCrops(images, rects, Some(display))| == |images| * |rects|
    ensures ExpectedCrops(images, rects, Some(display))[p * |rects| + r]
            == Crop(p, ScaleRect(rects[r], images[p], display))
  {
    CollectIndex(|images|, |rects|, CropCell(images, rects, display), p, r);
  }

  /** The crops go through the pages in order, and each names a page of
      the document. */
  lemma CropsPageOrder(images: seq<Size>, rects: seq<Rect>, display: Size)
    requires display.width > 0 && display.height > 0
    ensures var crops := ExpectedCrops(images, rects, Some(display));
      (forall k :: 0 <= k < |crops| ==> crops[k].page < |images|)
      && forall k, l :: 0 <= k < l < |crops| ==> crops[k].page <= crops[l].page
  {
    if rects != [] {
      var cell := CropCell(images, rects, display);
      CollectOrder(|images|, |rects|, cell);
      var crops, at := ExpectedCrops(images, rects, Some(display)), Origins(|images|, |rects|, cell);
      assert forall k :: 0 <= k < |crops| ==> crops[k].page == at[k].0;
    }
  }

  /** At most one record per (page, region) pair. */
  lemma RecordsBound(images: seq<Size>, rects: seq<Rect>, display: Option<Size>, ocr: Crop -> OcrReply)
    ensures |ExpectedRecords(images, rects, display, ocr)| <= |images| * |rects|
  {
    if rects != [] && Ready(display) {
      var all := (r: nat) => true;
      CountAll(|rects|, all);
      CollectCount(|images|, |rects|, CropCell(images, rects, display.value), all);
      PickedValues(Recognize(ocr), ExpectedCrops(images, rects, display));
    }
  }

  /** Records are in page order, and `Page` is the 1-based number of a page
      of the document. */
  lemma RecordsInPageOrder(images: seq<Size>, rects: seq<Rect>, display: Size, ocr: Crop -> OcrReply)
    requires display.width > 0 && display.height > 0
    ensures var recs := ExpectedRecords(images, rects, Some(display), ocr);
      (forall i :: 0 <= i < |recs| ==> 1 <= recs[i].page <= |images|)
      && forall i, j :: 0 <= i < j < |recs| ==> recs[i].page <= recs[j].page
  {
    var crops := ExpectedCrops(images, rects, Some(display));
    CropsPageOrder(images, rects, display);
    RecognizedPages(ocr, crops, |images|);
    assert ExpectedRecords(images, rects, Some(display), ocr) == FilterMap(Recognize(ocr), crops);
  }

  /** Records follow the loop's page-major, region-minor order: the i-th
      record is the one made for page at[i].0 and region at[i].1, and those
      pairs strictly increase in that order. */
  lemma RecordsFollowCrops(images: seq<Size>, rects: seq<Rect>, display: Size, ocr: Crop -> OcrReply)
      returns (at: seq<(nat, nat)>)
    requires display.width > 0 && display.height > 0
    ensures var recs := ExpectedRecords(images, rects, Some(display), ocr);
      |at| == |recs|
      && (forall i :: 0 <= i < |at| ==>
            at[i].0 < |images| && at[i].1 < |rects|
            && RecordOf(ocr, Crop(at[i].0, ScaleRect(rects[at[i].1], images[at[i].0], display))) == Some(recs[i]))
      && (forall i, j :: 0 <= i < j < |at| ==> Before(at[i], at[j]))
  {
    if rects == [] {
      at := [];
      assert ExpectedRecords(images, rects, Some(display), ocr) == [];
    } else {
      var cell := CropCell(images, rects, display);
      at := CollectFilterOrigins(|images|, |rects|, cell, Recognize(ocr));
      assert ExpectedRecords(images, rects, Some(display), ocr) == FilterMap(Recognize(ocr), Collect(|images|, |rects|, cell));
      forall i | 0 <= i < |at|
        ensures cell(at[i].0, at[i].1).value == Crop(at[i].0, ScaleRect(rects[at[i].1], images[at[i].0], display))
      {
      }
    }
  }

  /** Recognizing a sequence of crops whose pages are below n and in order
      gives records whose 1-based pages are in [1, n] and in order. */
  lemma RecognizedPages(ocr: Crop -> OcrReply, crops: seq<Crop>, n: nat)
    requires forall k :: 0 <= k < |crops| ==> crops[k].page < n
    requires forall k, l :: 0 <= k < l < |crops| ==> crops[k].page <= crops[l].page
    ensures var recs := FilterMap(Recognize(ocr), crops);
      (forall i :: 0 <= i < |recs| ==> 1 <= recs[i].page <= n)
      && forall i, j :: 0 <= i < j < |recs| ==> recs[i].page <= recs[j].page
  {
    var recs := FilterMap(Recognize(ocr), crops);
    FilterMapPicked(Recognize(ocr), crops);
    var at := Picked(Recognize(ocr), crops);
    forall i | 0 <= i < |recs|
      ensures recs[i].page == crops[at[i]].page + 1
    {
      RecordOfSome(ocr, crops[at[i]], recs[i]);
    }
  }

  /** Every crop is the scaled box of some region on some page. */
  lemma CropSource(images: seq<Size>, rects: seq<Rect>, display: Size, c: Crop)
    requires display.width > 0 && display.height > 0
    requires c in ExpectedCrops(images, rects, Some(display))
    ensures exists p, r :: 0 <= p < |images| && 0 <= r < |rects| && c == Crop(p, ScaleRect(rects[r], images[p], display))
  {
    var cell := CropCell(images, rects, display);
    CollectMembership(|images|, |rects|, cell, c);
    var p, r :| 0 <= p < |images| && 0 <= r < |rects| && cell(p, r) == Some(c);
    assert c == Crop(p, ScaleRect(rects[r], images[p], display));
  }

  lemma RecordCrop(images: seq<Size>, rects: seq<Rect>, display: Option<Size>, ocr: Crop -> OcrReply, rec: Record)
      returns (c: Crop)
    requires rec in ExpectedRecords(images, rects, display, ocr)
    ensures c in ExpectedCrops(images, rects, display) && RecordOf(ocr, c) == Some(rec)
  {
    var crops := ExpectedCrops(images, rects, display);
    FilterMapMembership(Recognize(ocr), crops, rec);
    c :| c in crops && Recognize(ocr)(c) == Some(rec);
  }

  /** Every record comes from some page and region whose crop has
      non-empty raw OCR text. */
  lemma RecordSource(images: seq<Size>, rects: seq<Rect>, display: Size, ocr: Crop -> OcrReply, rec: Record)
    requires display.width > 0 && display.height > 0
    requires rec in ExpectedRecords(images, rects, Some(display), ocr)
    ensures exists p, r :: 0 <= p < |images| && 0 <= r < |rects|
              && var box := ScaleRect(rects[r], images[p], display);
                 OcrText(ocr(Crop(p, box))) != "" && rec == Record(p + 1, Strip(OcrText(ocr(Crop(p, box)))), box)
  {
    var c := RecordCrop(images, rects, Some(display), ocr, rec);
    CropSource(images, rects, display, c);
    var p, r :| 0 <= p < |images| && 0 <= r < |rects| && c == Crop(p, ScaleRect(rects[r], images[p], display));
    RecordOfSome(ocr, c, rec);
    var box := ScaleRect(rects[r], images[p], display);
    assert OcrText(ocr(Crop(p, box))) != "" && rec == Record(p + 1, Strip(OcrText(ocr(Crop(p, box)))), box);
  }

  /** Every page and region whose crop has non-empty raw OCR text yields a
      record: that page's 1-based number, the stripped text, the scaled box. */
  lemma RecordOfCrop(images: seq<Size>, rects: seq<Rect>, display: Size, ocr: Crop -> OcrReply, p: nat, r: nat)
    requires display.width > 0 && display.height > 0 && p < |images| && r < |rects|
    requires OcrText(ocr(Crop(p, ScaleRect(rects[r], images[p], display)))) != ""
    ensures var box := ScaleRect(rects[r], images[p], display);
      Record(p + 1, Strip(OcrText(ocr(Crop(p, box)))), box) in ExpectedRecords(images, rects, Some(display), ocr)
  {
    var box := ScaleRect(rects[r], images[p], display);
    var c := Crop(p, box);
    var cell := CropCell(images, rects, display);
    assert cell(p, r) == Some(c);
    CollectMembership(|images|, |rects|, cell, c);
    FilterMapMembership(Recognize(ocr), ExpectedCrops(images, rects, Some(display)), Record(p + 1, Strip(OcrText(ocr(c))), box));
  }

  /** A record is produced exactly when some page and region give a crop
      whose raw OCR text is non-empty; it holds that page's 1-based number,
      the stripped text and the scaled box. */
  lemma RecordMembership(images: seq<Size>, rects: seq<Rect>, display: Size, ocr: Crop -> OcrReply, rec: Record)
    requires display.width > 0 && display.height > 0
    ensures rec in ExpectedRecords(images, rects, Some(display), ocr)
        <==> exists p, r :: 0 <= p < |images| && 0 <= r < |rects|
               && var box := ScaleRect(rects[r], images[p], display);
                  OcrText(ocr(Crop(p, box))) != "" && rec == Record(p + 1, Strip(OcrText(ocr(Crop(p, box)))), box)
  {
    if rec in ExpectedRecords(images, rects, Some(display), ocr) {
      RecordSource(images, rects, display, ocr, rec);
    }
    if exists p, r :: 0 <= p < |images| && 0 <= r < |rects|
         && var box := ScaleRect(rects[r], images[p], display);
            OcrText(ocr(Crop(p, box))) != "" && rec == Record(p + 1, Strip(OcrText(ocr(Crop(p, box)))), box)
    {
      var p, r :| 0 <= p < |images| && 0 <= r < |rects|
         && var box := ScaleRect(rects[r], images[p], display);
            OcrText(ocr(Crop(p, box))) != "" && rec == Record(p + 1, Strip(OcrText(ocr(Crop(p, box)))), box);
      RecordOfCrop(images, rects, display, ocr, p, r);
    }
  }

  /** OCR output made only of whitespace is truthy, so it still yields a
      record, whose stripped text is empty. */
  lemma BlankTextKeepsRecord(images: seq<Size>, rects: seq<Rect>, display: Size, ocr: Crop -> OcrReply, p: nat, r: nat)
    requires display.width > 0 && display.height > 0 && p < |images| && r < |rects|
    requires var reply := ocr(Crop(p, ScaleRect(rects[r], images[p], display)));
      reply.Text? && reply.text != [] && AllSpace(reply.text)
    ensures Record(p + 1, "", ScaleRect(rects[r], images[p], display)) in ExpectedRecords(images, rects, Some(display), ocr)
  {
    var box := ScaleRect(rects[r], images[p], display);
    WhitespaceOnlyStripsToEmpty(ocr(Crop(p, box)).text);
    RecordOfCrop(images, rects, display, ocr, p, r);
  }

  /** Once past the checks, the run reports that no text was found exactly
      when every crop's OCR text is empty (or the engine raised on it). */
  lemma NoTextExactly(images: seq<Size>, rects: seq<Rect>, display: Size, ocr: Crop -> OcrReply)
    requires display.width > 0 && display.height > 0 && images != [] && rects != []
    ensures ExpectedOutcome(images, rects, Some(display), ocr) == ShowError(NoTextMessage)
        <==> forall p, r :: 0 <= p < |images| && 0 <= r < |rects|
               ==> OcrText(ocr(Crop(p, ScaleRect(rects[r], images[p], display)))) == ""
  {
    var recs := ExpectedRecords(images, rects, Some(display), ocr);
    if recs != [] {
      RecordSource(images, rects, display, ocr, recs[0]);
    }
    if exists p, r :: 0 <= p < |images| && 0 <= r < |rects|
         && OcrText(ocr(Crop(p, ScaleRect(rects[r], images[p], display)))) != ""
    {
      var p, r :| 0 <= p < |images| && 0 <= r < |rects|
         && OcrText(ocr(Crop(p, ScaleRect(rects[r], images[p], display)))) != "";
      RecordOfCrop(images, rects, display, ocr, p, r);
    }
  }

  /** Two pages of 1200x1600 pixels shown at 600x800: the region
      (10, 10, 110, 60) is cropped at (20, 20, 220, 120) on page 1 and then
      on page 2, and when both crops have text the records are pages 1 and 2
      in that order, with that region. */
  lemma TwoPageScenario(ocr: Crop -> OcrReply)
    ensures var images, rects, display := [Size(1200, 1600), Size(1200, 1600)], [Rect(10, 10, 110, 60)], Size(600, 800);
      var box := Rect(20, 20, 220, 120);
      ExpectedCrops(images, rects, Some(display)) == [Crop(0, box), Crop(1, box)]
      && (OcrText(ocr(Crop(0, box))) != "" && OcrText(ocr(Crop(1, box))) != "" ==>
            ExpectedOutcome(images, rects, Some(display), ocr)
            == Export([Record(1, Strip(OcrText(ocr(Crop(0, box)))), box), Record(2, Strip(OcrText(ocr(Crop(1, box)))), box)]))
  {
    var images, rects, display := [Size(1200, 1600), Size(1200, 1600)], [Rect(10, 10, 110, 60)], Size(600, 800);
    var box := Rect(20, 20, 220, 120);
    ScaleByFactor(10, 2, 600);
    ScaleByFactor(110, 2, 600);
    ScaleByFactor(10, 2, 800);
    ScaleByFactor(60, 2, 800);
    assert ScaleRect(rects[0], images[0], display) == box;
    var cell := CropCell(images, rects, display);
    assert Row(0, 1, cell) == [Crop(0, box)];
    assert Row(1, 1, cell) == [Crop(1, box)];
    assert Collect(2, 1, cell) == [Crop(0, box), Crop(1, box)];
    FilterMapStep(Recognize(ocr), [Crop(0, box)], Crop(1, box));
    FilterMapStep(Recognize(ocr), [], Crop(0, box));
  }

  /** Canvas item ids: positive, strictly increasing, all handed out already. */
  ghost predicate IssuedIds(ids: seq<int>, next: int)
  {
    (forall i :: 0 <= i < |ids| ==> 1 <= ids[i] < next)
    && (forall i, j :: 0 <= i < j < |ids| ==> ids[i] < ids[j])
  }

  /** The n ids Tk hands out next, starting at `first`. */
  function IdRange(first: int, n: nat): (ids: seq<int>)
    ensures |ids| == n && forall i :: 0 <= i < n ==> ids[i] == first + i
  {
    seq(n, i requires 0 <= i < n => first + i)
  }

  class PdfExtractorApp {
    /** Regions drawn on the current page, as (start_x, start_y, x, y). */
    var rectangles: seq<Rect>
    /** Ids of the rectangles drawn on the canvas. */
    var rectangleIds: seq<int>
    var startX: Option<int>
    var startY: Option<int>
    /** The page images, by size; [] stands for both None and an empty list. */
    var images: seq<Size>
    var currentPage: nat
    /** Size of the resized copy on the canvas (display_image). */
    var display: Option<Size>
    /** The id the canvas gives to the next item it creates. */
    var nextId: int

    ghost predicate Valid()
      reads this
    {
      (currentPage == 0 || currentPage < |images|)
      && (startX.Some? <==> startY.Some?)
      && nextId >= 1
      && IssuedIds(rectangleIds, nextId)
    }

    constructor ()
      ensures Valid()
      ensures rectangles == [] && rectangleIds == [] && startX == None && startY == None
      ensures images == [] && currentPage == 0 && display == None
    {
      rectangles := [];
      rectangleIds := [];
      startX, startY := None, None;
      images := [];
      currentPage := 0;
      display := None;
      nextId := 1;
    }

    /** load_pdf: a successful conversion replaces the pages, goes back to
        page 0 and shows it; the regions drawn so far are kept and redrawn.
        A failed conversion shows an error and changes nothing. */
    method LoadPdf(result: LoadResult, fitted: Size) returns (error: Option<string>)
      requires Valid()
      modifies this`images, this`currentPage, this`display, this`rectangleIds, this`nextId
      ensures Valid()
      ensures rectangles == old(rectangles)
      ensures result.LoadFailed? ==>
        error == Some(LoadErrorPrefix + result.reason)
        && images == old(images) && currentPage == old(currentPage) && display == old(display)
        && rectangleIds == old(rectangleIds) && nextId == old(nextId)
      ensures result.Converted? ==>
        error == None && images == result.pages && currentPage == 0
        && if images == [] then
             display == old(display) && rectangleIds == old(rectangleIds) && nextId == old(nextId)
           else
             display == Some(fitted) && nextId == old(nextId) + 1 + |rectangles|
             && rectangleIds == old(rectangleIds) + IdRange(old(nextId) + 1, |rectangles|)
    {
      match result
      case LoadFailed(reason) =>
        error := Some(LoadErrorPrefix + reason);
      case Converted(pages) =>
        images := pages;
        currentPage := 0;
        DisplayPdfPage(currentPage, fitted);
        error := None;
    }

    /** display_pdf_page: with pages loaded, show page `pageNumber` (resized
        by the imaging library to `fitted`), which creates one image item and
        one rectangle item per stored region; with none, do nothing. */
    method DisplayPdfPage(pageNumber: nat, fitted: Size)
      requires Valid() && (images == [] || pageNumber < |images|)
      modifies this`display, this`rectangleIds, this`nextId
      ensures Valid()
      ensures images == [] ==>
        display == old(display) && rectangleIds == old(rectangleIds) && nextId == old(nextId)
      ensures images != [] ==>
        display == Some(fitted) && nextId == old(nextId) + 1 + |rectangles|
        && rectangleIds == old(rectangleIds) + IdRange(old(nextId) + 1, |rectangles|)
    {
      if images == [] {
        return;
      }
      display := Some(fitted);
      nextId := nextId + 1;
      var i := 0;
      while i < |rectangles|
        invariant 0 <= i <= |rectangles|
        invariant nextId == old(nextId) + 1 + i && display == Some(fitted)
        invariant rectangleIds == old(rectangleIds) + IdRange(old(nextId) + 1, i)
        invariant IssuedIds(rectangleIds, nextId)
      {
        rectangleIds := rectangleIds + [nextId];
        nextId := nextId + 1;
        i := i + 1;
      }
    }

    /** on_button_press: remember where the gesture started. */
    method OnButtonPress(x: int, y: int)
      requires Valid()
      modifies this`startX, this`startY
      ensures Valid()
      ensures startX == Some(x) && startY == Some(y)
    {
      startX := Some(x);
      startY := Some(y);
    }

    /** on_mouse_drag: draw a new live rectangle; its id is appended to
        rectangle_ids. The stored regions do not change. */
    method OnMouseDrag(x: int, y: int)
      requires Valid() && startX.Some?
      modifies this`rectangleIds, this`nextId
      ensures Valid()
      ensures rectangleIds == old(rectangleIds) + [old(nextId)] && nextId == old(nextId) + 1
      ensures rectangles == old(rectangles)
    {
      rectangleIds := rectangleIds + [nextId];
      nextId := nextId + 1;
    }

    /** on_button_release: append (start_x, start_y, x, y), unnormalised,
        to the end of the stored regions. */
    method OnButtonRelease(x: int, y: int)
      requires Valid() && startX.Some? && startY.Some?
      modifies this`rectangles
      ensures Valid()
      ensures rectangles == old(rectangles) + [Rect(startX.value, startY.value, x, y)]
    {
      rectangles := rectangles + [Rect(startX.value, startY.value, x, y)];
    }

    /** prev_page: when pages are loaded and this is not the first one, step
        back, discard every region and show the page; otherwise nothing. */
    method PrevPage(fitted: Size)
      requires Valid()
      modifies this`currentPage, this`rectangles, this`rectangleIds, this`display, this`nextId
      ensures Valid()
      ensures images == old(images)
      ensures old(images != [] && currentPage > 0) ==>
        currentPage == old(currentPage) - 1 && rectangles == [] && rectangleIds == []
        && display == Some(fitted) && nextId == old(nextId) + 1
      ensures !old(images != [] && currentPage > 0) ==>
        currentPage == old(currentPage) && rectangles == old(rectangles) && rectangleIds == old(rectangleIds)
        && display == old(display) && nextId == old(nextId)
    {
      if images != [] && currentPage > 0 {
        currentPage := currentPage - 1;
        rectangles := [];
        rectangleIds := [];
        DisplayPdfPage(currentPage, fitted);
      }
    }

    /** next_page: when this is not the last page, step forward, discard
        every region and show the page; otherwise nothing. */
    method NextPage(fitted: Size)
      requires Valid()
      modifies this`currentPage, this`rectangles, this`rectangleIds, this`display, this`nextId
      ensures Valid()
      ensures images == old(images)
      ensures old(images != [] && currentPage < |images| - 1) ==>
        currentPage == old(currentPage) + 1 && rectangles == [] && rectangleIds == []
        && display == Some(fitted) && nextId == old(nextId) + 1
      ensures !old(images != [] && currentPage < |images| - 1) ==>
        currentPage == old(currentPage) && rectangles == old(rectangles) && rectangleIds == old(rectangleIds)
        && display == old(display) && nextId == old(nextId)
    {
      if images != [] && currentPage < |images| - 1 {
        currentPage := currentPage + 1;
        rectangles := [];
        rectangleIds := [];
        DisplayPdfPage(currentPage, fitted);
      }
    }

    /** One pass of the outer loop of extract_and_export once the display
        is known to be usable: every region scaled to page `pageNum`, in
        region order, and the records its OCR text yields. */
    method ExtractPage(ocr: Crop -> OcrReply, pageNum: nat, shown: Size) returns (row: seq<Crop>, found: seq<Record>)
      requires pageNum < |images| && shown.width > 0 && shown.height > 0
      ensures row == Row(pageNum, |rectangles|, CropCell(images, rectangles, shown))
      ensures found == FilterMap(Recognize(ocr), row)
    {
      ghost var cropAt := CropCell(images, rectangles, shown);
      row, found := [], [];
      var j := 0;
      while j < |rectangles|
        invariant 0 <= j <= |rectangles|
        invariant row == Row(pageNum, j, cropAt)
        invariant found == FilterMap(Recognize(ocr), row)
      {
        var box := ScaleRect(rectangles[j], images[pageNum], shown);
        CellStep(images, rectangles, shown, pageNum, j);
        FilterMapStep(Recognize(ocr), row, Crop(pageNum, box));
        row := row + [Crop(pageNum, box)];
        var record := RecordOf(ocr, Crop(pageNum, box));
        if record.Some? {
          found := found + [record.value];
        }
        j := j + 1;
      }
    }

    /** extract_and_export: every stored region on every page, page-major
        and region-minor, each scaled with the displayed copy's size. It
        returns how the run ends and the crops handed to OCR. */
    method ExtractAndExport(ocr: Crop -> OcrReply) returns (outcome: Outcome<Record>, crops: seq<Crop>)
      ensures outcome == ExpectedOutcome(images, rectangles, display, ocr)
      ensures crops == ExpectedCrops(images, rectangles, display)
    {
      crops := [];
      if rectangles == [] {
        return ShowError(NoRegionMessage), crops;
      }
      var extracted: seq<Record> := [];
      ghost var shown := if Ready(display) then display.value else Size(1, 1);
      ghost var cropAt := CropCell(images, rectangles, shown);
      var pageNum := 0;
      while pageNum < |images|
        invariant 0 <= pageNum <= |images|
        invariant pageNum > 0 ==> Ready(display)
        invariant crops == Collect(pageNum, |rectangles|, cropAt)
        invariant extracted == FilterMap(Recognize(ocr), crops)
      {
        // The scale factors are computed for the first region of the page,
        // so an unusable display fails there, before any crop.
        if display.None? {
          assert crops == [];
          return Crash("AttributeError"), crops;
        }
        if display.value.width == 0 || display.value.height == 0 {
          assert crops == [];
          return Crash("ZeroDivisionError"), crops;
        }
        var row, found := ExtractPage(ocr, pageNum, display.value);
        FilterMapAppend(Recognize(ocr), crops, row);
        assert crops + row == Collect(pageNum + 1, |rectangles|, cropAt);
        crops := crops + row;
        extracted := extracted + found;
        pageNum := pageNum + 1;
      }
      assert crops == ExpectedCrops(images, rectangles, display);
      assert extracted == ExpectedRecords(images, rectangles, display, ocr);
      if extracted != [] {
        outcome := Export(extracted);
      } else {
        outcome := ShowError(NoTextMessage);
      }
    }
  }
}
