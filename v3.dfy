/** The third version of PDFExtractorApp (v3.py): one list `rectangles`
    holds both the canvas ids of rectangles drawn while dragging and the
    4-tuples stored over them on release; extraction crops every tuple, as
    stored and without scaling, on every page. */
module V3 {
  import opened Common
  import opened Text
  import opened Batch

  /** An entry of `rectangles`: the canvas id a drag appended, or the
      4-tuple a release wrote over it. */
  datatype Entry = CanvasId(id: int) | Coords(rect: Rect)

  // ---------------------------------------------------------------------
  // What one run of extract_and_export does (v3.py:92-127)
  // ---------------------------------------------------------------------

  /** The crop for page p and entry r: a 4-tuple is cropped exactly as
      stored; a canvas id is skipped. */
  function EntryCell(images: seq<Size>, entries: seq<Entry>): (nat, nat) -> Option<Crop>
  {
    (p: nat, r: nat) =>
      if p < |images| && r < |entries| && entries[r].Coords? then Some(Crop(p, entries[r].rect)) else None
  }

  /** One more entry of page p that is a 4-tuple appends its crop. */
  lemma TupleStep(images: seq<Size>, entries: seq<Entry>, p: nat, r: nat)
    requires p < |images| && r < |entries| && entries[r].Coords?
    ensures Row(p, r + 1, EntryCell(images, entries))
            == Row(p, r, EntryCell(images, entries)) + [Crop(p, entries[r].rect)]
  {
    RowStep(p, r, EntryCell(images, entries));
  }

  /** One more entry of page p that is a canvas id appends nothing. */
  lemma IdStep(images: seq<Size>, entries: seq<Entry>, p: nat, r: nat)
    requires r < |entries| && entries[r].CanvasId?
    ensures Row(p, r + 1, EntryCell(images, entries)) == Row(p, r, EntryCell(images, entries))
  {
    RowStep(p, r, EntryCell(images, entries));
  }

  /** Entry r is a 4-tuple. */
  function IsTuple(entries: seq<Entry>): nat -> bool
  {
    (r: nat) => r < |entries| && entries[r].Coords?
  }

  /** The crops handed to OCR, in the order the loop takes them. */
  function ExpectedCrops(images: seq<Size>, entries: seq<Entry>): seq<Crop>
  {
    if entries == [] then [] else Collect(|images|, |entries|, EntryCell(images, entries))
  }

  /** The records collected from those crops. */
  function ExpectedRecords(images: seq<Size>, entries: seq<Entry>, ocr: Crop -> OcrReply): seq<Record>
  {
    FilterMap(Recognize(ocr), ExpectedCrops(images, entries))
  }

  /** How the run ends. */
  function ExpectedOutcome(images: seq<Size>, entries: seq<Entry>, ocr: Crop -> OcrReply): Outcome<Record>
  {
    if entries == [] then ShowError(NoRegionMessage)
    else
      var records := ExpectedRecords(images, entries, ocr);
      if records == [] then ShowError(NoTextMessage) else Export(records)
  }

  /** Without entries nothing is cropped, nothing is recognised and the
      run asks for a region. */
  lemma NoRegionNoWork(images: seq<Size>, ocr: Crop -> OcrReply)
    ensures ExpectedCrops(images, []) == [] && ExpectedRecords(images, [], ocr) == []
    ensures ExpectedOutcome(images, [], ocr) == ShowError(NoRegionMessage)
  {
    assert ExpectedCrops(images, []) == [];
  }

  /** One crop per (page, 4-tuple) pair, so at most that many records. */
  lemma CropsCount(images: seq<Size>, entries: seq<Entry>, ocr: Crop -> OcrReply)
    ensures |ExpectedCrops(images, entries)| == |images| * CountWhere(|entries|, IsTuple(entries))
    ensures |ExpectedRecords(images, entries, ocr)| <= |images| * CountWhere(|entries|, IsTuple(entries))
  {
    if entries != [] {
      var cell, q := EntryCell(images, entries), IsTuple(entries);
      assert forall p, r :: 0 <= r < |entries| && cell(p, r).Some? ==> q(r);
      assert forall p, r :: 0 <= p < |images| && 0 <= r < |entries| && q(r) ==> cell(p, r).Some?;
      CollectCount(|images|, |entries|, cell, q);
    }
    PickedValues(Recognize(ocr), ExpectedCrops(images, entries));
  }

  /** A list holding only canvas ids is not empty, so it passes the first
      check, but nothing is cropped and the run reports that no text was
      found. */
  lemma OnlyIdsFindNothing(images: seq<Size>, entries: seq<Entry>, ocr: Crop -> OcrReply)
    requires entries != [] && forall r :: 0 <= r < |entries| ==> entries[r].CanvasId?
    ensures ExpectedCrops(images, entries) == []
    ensures ExpectedOutcome(images, entries, ocr) == ShowError(NoTextMessage)
  {
    CountNone(|entries|, IsTuple(entries));
    CropsCount(images, entries, ocr);
  }

  /** Every crop is a stored 4-tuple, unscaled, on a page of the document. */
  lemma CropSource(images: seq<Size>, entries: seq<Entry>, c: Crop)
    requires c in ExpectedCrops(images, entries)
    ensures c.page < |images| && Coords(c.box) in entries
  {
    var cell := EntryCell(images, entries);
    CollectMembership(|images|, |entries|, cell, c);
    var p, r :| 0 <= p < |images| && 0 <= r < |entries| && cell(p, r) == Some(c);
    assert entries[r] == Coords(c.box);
  }

  lemma RecordCrop(images: seq<Size>, entries: seq<Entry>, ocr: Crop -> OcrReply, rec: Record) returns (c: Crop)
    requires rec in ExpectedRecords(images, entries, ocr)
    ensures c in ExpectedCrops(images, entries) && RecordOf(ocr, c) == Some(rec)
  {
    var crops := ExpectedCrops(images, entries);
    FilterMapMembership(Recognize(ocr), crops, rec);
    c :| c in crops && Recognize(ocr)(c) == Some(rec);
  }

  /** Every record names a page of the document, carries a stored 4-tuple
      as its region, and comes from a crop whose raw OCR text is non-empty. */
  lemma RecordSource(images: seq<Size>, entries: seq<Entry>, ocr: Crop -> OcrReply, rec: Record)
    requires rec in ExpectedRecords(images, entries, ocr)
    ensures 1 <= rec.page <= |images| && Coords(rec.region) in entries
    ensures var text := OcrText(ocr(Crop(rec.page - 1, rec.region)));
      text != "" && rec.text == Strip(text)
  {
    var c := RecordCrop(images, entries, ocr, rec);
    CropSource(images, entries, c);
    RecordOfSome(ocr, c, rec);
    assert c == Crop(rec.page - 1, rec.region);
  }

  /** Every stored 4-tuple is cropped on every page. */
  lemma TupleCropped(images: seq<Size>, entries: seq<Entry>, p: nat, r: nat)
    requires p < |images| && r < |entries| && entries[r].Coords?
    ensures Crop(p, entries[r].rect) in ExpectedCrops(images, entries)
  {
    var cell := EntryCell(images, entries);
    assert cell(p, r) == Some(Crop(p, entries[r].rect));
    CollectMembership(|images|, |entries|, cell, Crop(p, entries[r].rect));
  }

  /** Every page and stored 4-tuple whose crop has non-empty raw OCR text
      yields a record: the page's 1-based number, the stripped text and
      the tuple itself. */
  lemma RecordOfTuple(images: seq<Size>, entries: seq<Entry>, ocr: Crop -> OcrReply, p: nat, r: nat)
    requires p < |images| && r < |entries| && entries[r].Coords?
    requires OcrText(ocr(Crop(p, entries[r].rect))) != ""
    ensures var rect := entries[r].rect;
      Record(p + 1, Strip(OcrText(ocr(Crop(p, rect)))), rect) in ExpectedRecords(images, entries, ocr)
  {
    var c := Crop(p, entries[r].rect);
    TupleCropped(images, entries, p, r);
    var rec := Record(p + 1, Strip(OcrText(ocr(c))), c.box);
    assert Recognize(ocr)(c) == Some(rec);
    FilterMapMembership(Recognize(ocr), ExpectedCrops(images, entries), rec);
  }

  /** Records follow the loop's page-major, entry-minor order: the i-th
      record is the one made for page at[i].0 and the 4-tuple entry at[i].1,
      and those pairs strictly increase in that order. */
  lemma RecordsFollowEntries(images: seq<Size>, entries: seq<Entry>, ocr: Crop -> OcrReply)
      returns (at: seq<(nat, nat)>)
    ensures var recs := ExpectedRecords(images, entries, ocr);
      |at| == |recs|
      && (forall i :: 0 <= i < |at| ==>
            at[i].0 < |images| && at[i].1 < |entries| && entries[at[i].1].Coords?
            && RecordOf(ocr, Crop(at[i].0, entries[at[i].1].rect)) == Some(recs[i]))
      && (forall i, j :: 0 <= i < j < |at| ==> Before(at[i], at[j]))
  {
    if entries == [] {
      at := [];
      assert ExpectedRecords(images, entries, ocr) == [];
    } else {
      var cell := EntryCell(images, entries);
      at := CollectFilterOrigins(|images|, |entries|, cell, Recognize(ocr));
      assert ExpectedRecords(images, entries, ocr) == FilterMap(Recognize(ocr), Collect(|images|, |entries|, cell));
      forall i | 0 <= i < |at|
        ensures entries[at[i].1].Coords? && cell(at[i].0, at[i].1).value == Crop(at[i].0, entries[at[i].1].rect)
      {
      }
    }
  }

  /** Records are in page order. */
  lemma RecordsInPageOrder(images: seq<Size>, entries: seq<Entry>, ocr: Crop -> OcrReply)
    ensures var recs := ExpectedRecords(images, entries, ocr);
      forall i, j :: 0 <= i < j < |recs| ==> recs[i].page <= recs[j].page
  {
    var crops := ExpectedCrops(images, entries);
    CropsPageOrder(images, entries);
    FilterMapPicked(Recognize(ocr), crops);
    var recs, at := ExpectedRecords(images, entries, ocr), Picked(Recognize(ocr), crops);
    assert forall i :: 0 <= i < |recs| ==> recs[i].page == crops[at[i]].page + 1;
  }

  lemma CropsPageOrder(images: seq<Size>, entries: seq<Entry>)
    ensures var crops := ExpectedCrops(images, entries);
      forall k, l :: 0 <= k < l < |crops| ==> crops[k].page <= crops[l].page
  {
    if entries != [] {
      var cell := EntryCell(images, entries);
      CollectOrder(|images|, |entries|, cell);
      var crops, at := ExpectedCrops(images, entries), Origins(|images|, |entries|, cell);
      assert forall k :: 0 <= k < |crops| ==> crops[k].page == at[k].0;
    }
  }

  /** With at least one entry, the run reports that no text was found
      exactly when no stored 4-tuple has OCR text on any page. */
  lemma NoTextExactly(images: seq<Size>, entries: seq<Entry>, ocr: Crop -> OcrReply)
    requires entries != []
    ensures ExpectedOutcome(images, entries, ocr) == ShowError(NoTextMessage)
        <==> forall p, r :: 0 <= p < |images| && 0 <= r < |entries| && entries[r].Coords?
               ==> OcrText(ocr(Crop(p, entries[r].rect))) == ""
  {
    var recs := ExpectedRecords(images, entries, ocr);
    if recs != [] {
      RecordSource(images, entries, ocr, recs[0]);
      var rec := recs[0];
      var r :| 0 <= r < |entries| && entries[r] == Coords(rec.region);
      assert OcrText(ocr(Crop(rec.page - 1, entries[r].rect))) != "";
    }
    if exists p, r :: 0 <= p < |images| && 0 <= r < |entries| && entries[r].Coords?
         && OcrText(ocr(Crop(p, entries[r].rect))) != ""
    {
      var p, r :| 0 <= p < |images| && 0 <= r < |entries| && entries[r].Coords?
         && OcrText(ocr(Crop(p, entries[r].rect))) != "";
      RecordOfTuple(images, entries, ocr, p, r);
    }
  }

  class PdfExtractorApp {
    /** Canvas ids and stored 4-tuples, in the order they were added. */
    var rectangles: seq<Entry>
    var startX: Option<int>
    var startY: Option<int>
    /** The page images, by size; [] stands for both None and an empty list. */
    var images: seq<Size>
    /** The id the canvas gives to the next item it creates. */
    var nextId: int

    /** Every canvas id in the list was handed out already. */
    ghost predicate Valid()
      reads this
    {
      (startX.Some? <==> startY.Some?)
      && nextId >= 1
      && forall i :: 0 <= i < |rectangles| && rectangles[i].CanvasId? ==> 1 <= rectangles[i].id < nextId
    }

    constructor ()
      ensures Valid()
      ensures rectangles == [] && startX == None && startY == None && images == []
    {
      rectangles := [];
      startX, startY := None, None;
      images := [];
      nextId := 1;
    }

    /** load_pdf followed by display_pdf_page(0): the pages are replaced,
        the first one is shrunk in place to the size that fits the canvas
        (`fitted`) and shown, which creates one image item. Nothing catches
        an exception here: a failed conversion escapes and changes nothing,
        and a document without pages fails on `images[0]` after `images`
        was assigned. The stored entries are kept. */
    method LoadPdf(result: LoadResult, fitted: Size) returns (error: Option<string>)
      requires Valid()
      modifies this`images, this`nextId
      ensures Valid()
      ensures rectangles == old(rectangles)
      ensures result.LoadFailed? ==> error == Some(result.reason) && images == old(images) && nextId == old(nextId)
      ensures result.Converted? && result.pages == [] ==>
        error == Some("IndexError") && images == [] && nextId == old(nextId)
      ensures result.Converted? && result.pages != [] ==>
        error == None && images == result.pages[0 := fitted] && nextId == old(nextId) + 1
    {
      match result
      case LoadFailed(reason) =>
        return Some(reason);
      case Converted(pages) =>
        images := pages;
        if images == [] {
          return Some("IndexError");
        }
        images := images[0 := fitted];
        nextId := nextId + 1;
        error := None;
    }

    /** on_button_press: remember where the gesture started. */
    method OnButtonPress(x: int, y: int)
      requires Valid()
      modifies this`startX, this`startY
      ensures Valid()
      ensures startX == Some(x) && startY == Some(y)
    {
      startX := Some(x);
      startY := Some(y);
    }

    /** on_mouse_drag: every motion event appends the id of a freshly drawn
        rectangle; no entry is removed or changed. */
    method OnMouseDrag(x: int, y: int)
      requires Valid() && startX.Some?
      modifies this`rectangles, this`nextId
      ensures Valid()
      ensures rectangles == old(rectangles) + [CanvasId(old(nextId))] && nextId == old(nextId) + 1
    {
      rectangles := rectangles + [CanvasId(nextId)];
      nextId := nextId + 1;
    }

    /** on_button_release: `coords` is what the canvas reports for the last
        entry. With four numbers the last entry is overwritten by that
        4-tuple; otherwise nothing changes. With an empty list
        `rectangles[-1]` raises IndexError. The length never changes. */
    method OnButtonRelease(coords: seq<int>) returns (error: Option<string>)
      requires Valid()
      modifies this`rectangles
      ensures Valid()
      ensures |rectangles| == |old(rectangles)|
      ensures old(rectangles) == [] ==> error == Some("IndexError") && rectangles == old(rectangles)
      ensures old(rectangles) != [] && |coords| == 4 ==>
        error == None
        && rectangles == old(rectangles)[|old(rectangles)| - 1 := Coords(Rect(coords[0], coords[1], coords[2], coords[3]))]
      ensures old(rectangles) != [] && |coords| != 4 ==> error == None && rectangles == old(rectangles)
    {
      if rectangles == [] {
        return Some("IndexError");
      }
      if |coords| == 4 {
        rectangles := rectangles[|rectangles| - 1 := Coords(Rect(coords[0], coords[1], coords[2], coords[3]))];
      }
      error := None;
    }

    /** One pass of the outer loop of extract_and_export: every stored
        4-tuple cropped from page `pageNum`, in list order, and the records
        its OCR text yields; canvas ids are skipped. */
    method ExtractPage(ocr: Crop -> OcrReply, pageNum: nat) returns (row: seq<Crop>, found: seq<Record>)
      requires pageNum < |images|
      ensures row == Row(pageNum, |rectangles|, EntryCell(images, rectangles))
      ensures found == FilterMap(Recognize(ocr), row)
    {
      ghost var cell := EntryCell(images, rectangles);
      row, found := [], [];
      var j := 0;
      while j < |rectangles|
        invariant 0 <= j <= |rectangles|
        invariant row == Row(pageNum, j, cell)
        invariant found == FilterMap(Recognize(ocr), row)
      {
        var rect := rectangles[j];
        if rect.Coords? {
          TupleStep(images, rectangles, pageNum, j);
          var c := Crop(pageNum, rect.rect);
          FilterMapStep(Recognize(ocr), row, c);
          row := row + [c];
          var record := RecordOf(ocr, c);
          assert Recognize(ocr)(c) == record;
          if record.Some? {
            found := found + [record.value];
          }
          assert found == FilterMap(Recognize(ocr), row);
        } else {
          IdStep(images, rectangles, pageNum, j);
        }
        j := j + 1;
      }
    }

    /** extract_and_export: every stored 4-tuple on every page, page-major
        and entry-minor, cropped as stored. It returns how the run ends and
        the crops handed to OCR. */
    method ExtractAndExport(ocr: Crop -> OcrReply) returns (outcome: Outcome<Record>, crops: seq<Crop>)
      ensures outcome == ExpectedOutcome(images, rectangles, ocr)
      ensures crops == ExpectedCrops(images, rectangles)
    {
      crops := [];
      if rectangles == [] {
        return ShowError(NoRegionMessage), crops;
      }
      var extracted: seq<Record> := [];
      ghost var cell := EntryCell(images, rectangles);
      var pageNum := 0;
      while pageNum < |images|
        invariant 0 <= pageNum <= |images|
        invariant crops == Collect(pageNum, |rectangles|, cell)
        invariant extracted == FilterMap(Recognize(ocr), crops)
      {
        var row, found := ExtractPage(ocr, pageNum);
        FilterMapAppend(Recognize(ocr), crops, row);
        assert crops + row == Collect(pageNum + 1, |rectangles|, cell);
        crops := crops + row;
        extracted := extracted + found;
        pageNum := pageNum + 1;
      }
      if extracted != [] {
        outcome := Export(extracted);
      } else {
        outcome := ShowError(NoTextMessage);
      }
    }
  }
}
