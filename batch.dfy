/** The shape shared by every version's extraction loop:
      for page_num in range(pages):
        for region in range(regions):
          if <cell (page_num, region) yields something>: extracted_data.append(it)
    `Collect` is that loop as a function; the lemmas say what it produces:
    exactly the cells that yield something, in page-major, region-minor
    order, and so at most pages * regions of them. */
module Batch {
  import opened Common
  import opened Text

  /** What a cell contributes to the output: its value, or nothing. */
  function Kept<T>(o: Option<T>): seq<T>
  {
    if o.Some? then [o.value] else []
  }

  /** The values produced for page `p` by regions 0 .. n-1, in that order. */
  function Row<T>(p: nat, n: nat, cell: (nat, nat) -> Option<T>): seq<T>
  {
    if n == 0 then [] else Row(p, n - 1, cell) + Kept(cell(p, n - 1))
  }

  /** The values produced for pages 0 .. pages-1, each over `regions` regions. */
  function Collect<T>(pages: nat, regions: nat, cell: (nat, nat) -> Option<T>): seq<T>
  {
    if pages == 0 then [] else Collect(pages - 1, regions, cell) + Row(pages - 1, regions, cell)
  }

  /** The same cell with its value replaced by its own coordinates. */
  function Tag<T>(cell: (nat, nat) -> Option<T>): (nat, nat) -> Option<(nat, nat)>
  {
    (p: nat, r: nat) => if cell(p, r).Some? then Some((p, r)) else None
  }

  /** The (page, region) pair each output value of `Collect` came from. */
  function Origins<T>(pages: nat, regions: nat, cell: (nat, nat) -> Option<T>): seq<(nat, nat)>
  {
    Collect(pages, regions, Tag(cell))
  }

  /** `xs` mapped through `f`, keeping only the values `f` yields, in order. */
  function FilterMap<S, R>(f: S -> Option<R>, xs: seq<S>): seq<R>
  {
    if xs == [] then [] else FilterMap(f, xs[..|xs| - 1]) + Kept(f(xs[|xs| - 1]))
  }

  /** Appending one element appends its value, if any. */
  lemma FilterMapStep<S, R>(f: S -> Option<R>, xs: seq<S>, x: S)
    ensures FilterMap(f, xs + [x]) == FilterMap(f, xs) + Kept(f(x))
  {
    assert (xs + [x])[..|xs|] == xs;
  }

  /** Filtering a concatenation filters each part. */
  lemma {:induction false} FilterMapAppend<S, R>(f: S -> Option<R>, xs: seq<S>, ys: seq<S>)
    ensures FilterMap(f, xs + ys) == FilterMap(f, xs) + FilterMap(f, ys)
    decreases |ys|
  {
    if ys != [] {
      var init := ys[..|ys| - 1];
      var last := ys[|ys| - 1];
      assert ys == init + [last];
      assert xs + ys == (xs + init) + [last];
      FilterMapAppend(f, xs, init);
      FilterMapStep(f, xs + init, last);
      FilterMapStep(f, init, last);
    } else {
      assert xs + ys == xs;
    }
  }

  /** The indices of the elements of `xs` that `f` keeps, in increasing order. */
  function Picked<S, R>(f: S -> Option<R>, xs: seq<S>): seq<nat>
  {
    if xs == [] then [] else Picked(f, xs[..|xs| - 1]) + (if f(xs[|xs| - 1]).Some? then [|xs| - 1] else [])
  }

  lemma {:induction false} PickedValues<S, R>(f: S -> Option<R>, xs: seq<S>)
    ensures var out, at := FilterMap(f, xs), Picked(f, xs);
      |at| == |out| <= |xs|
      && forall i :: 0 <= i < |at| ==> at[i] < |xs| && f(xs[at[i]]) == Some(out[i])
  {
    if xs != [] {
      var init := xs[..|xs| - 1];
      PickedValues(f, init);
      var out, at := FilterMap(f, xs), Picked(f, xs);
      var out', at' := FilterMap(f, init), Picked(f, init);
      forall i | 0 <= i < |at| ensures at[i] < |xs| && f(xs[at[i]]) == Some(out[i]) {
        if i < |at'| {
          assert at[i] == at'[i] && out[i] == out'[i];
          assert xs[at'[i]] == init[at'[i]];
        }
      }
    }
  }

  lemma {:induction false} PickedSorted<S, R>(f: S -> Option<R>, xs: seq<S>)
    ensures forall i :: 0 <= i < |Picked(f, xs)| ==> Picked(f, xs)[i] < |xs|
    ensures forall i, j :: 0 <= i < j < |Picked(f, xs)| ==> Picked(f, xs)[i] < Picked(f, xs)[j]
  {
    if xs != [] {
      var init := xs[..|xs| - 1];
      PickedSorted(f, init);
      var at, at' := Picked(f, xs), Picked(f, init);
      assert forall i :: 0 <= i < |at'| ==> at'[i] < |init|;
      assert at == at' + (if f(xs[|xs| - 1]).Some? then [|xs| - 1] else []);
      forall i | 0 <= i < |at| ensures at[i] < |xs| {
        if i < |at'| {
          assert at[i] == at'[i];
        }
      }
      forall i, j | 0 <= i < j < |at| ensures at[i] < at[j] {
        if j >= |at'| {
          assert j == |at'| && i < |at'|;
          assert at[j] == |xs| - 1;
          assert at[i] == at'[i];
          assert at'[i] < |init|;
        } else {
          assert at[j] == at'[j] && at[i] == at'[i];
        }
      }
    }
  }

  lemma {:induction false} PickedComplete<S, R>(f: S -> Option<R>, xs: seq<S>)
    ensures forall k :: 0 <= k < |xs| && f(xs[k]).Some? ==> k in Picked(f, xs)
  {
    if xs != [] {
      var init := xs[..|xs| - 1];
      PickedComplete(f, init);
      var at, at' := Picked(f, xs), Picked(f, init);
      forall k | 0 <= k < |xs| && f(xs[k]).Some? ensures k in at {
        if k < |xs| - 1 {
          assert xs[k] == init[k];
          assert k in at';
        } else {
          assert at[|at| - 1] == k;
        }
      }
    }
  }

  /** FilterMap keeps a subsequence: its i-th value is what `f` yields for
      the element at index Picked[i], those indices strictly increase, and
      every element `f` keeps is picked. */
  lemma FilterMapPicked<S, R>(f: S -> Option<R>, xs: seq<S>)
    ensures var out, at := FilterMap(f, xs), Picked(f, xs);
      |at| == |out| <= |xs|
      && (forall i :: 0 <= i < |at| ==> at[i] < |xs| && f(xs[at[i]]) == Some(out[i]))
      && (forall i, j :: 0 <= i < j < |at| ==> at[i] < at[j])
      && (forall k :: 0 <= k < |xs| && f(xs[k]).Some? ==> k in at)
  {
    PickedValues(f, xs);
    PickedSorted(f, xs);
    PickedComplete(f, xs);
  }

  /** A value is kept if and only if `f` yields it for some element. */
  lemma FilterMapMembership<S, R>(f: S -> Option<R>, xs: seq<S>, y: R)
    ensures y in FilterMap(f, xs) <==> exists x :: x in xs && f(x) == Some(y)
  {
    FilterMapPicked(f, xs);
    var out, at := FilterMap(f, xs), Picked(f, xs);
    if y in out {
      var i :| 0 <= i < |out| && out[i] == y;
      assert xs[at[i]] in xs && f(xs[at[i]]) == Some(y);
    }
    if exists x :: x in xs && f(x) == Some(y) {
      var x :| x in xs && f(x) == Some(y);
      var k :| 0 <= k < |xs| && xs[k] == x;
      var i :| 0 <= i < |at| && at[i] == k;
      assert out[i] == y;
    }
  }

  /** The body of the inner loop once a crop is chosen: OCR the crop and
      keep {Page: page_num + 1, Extracted Data: text.strip(), Region: box}
      when the raw text is non-empty (a truthy Python string). */
  function RecordOf(ocr: Crop -> OcrReply, c: Crop): Option<Record>
  {
    var text := OcrText(ocr(c));
    if text != "" then Some(Record(c.page + 1, Strip(text), c.box)) else None
  }

  lemma RecordOfSome(ocr: Crop -> OcrReply, c: Crop, rec: Record)
    requires RecordOf(ocr, c) == Some(rec)
    ensures OcrText(ocr(c)) != "" && rec == Record(c.page + 1, Strip(OcrText(ocr(c))), c.box)
  {
  }

  /** RecordOf for a fixed OCR engine. */
  function Recognize(ocr: Crop -> OcrReply): Crop -> Option<Record>
  {
    c => RecordOf(ocr, c)
  }

  /** Page-major, region-minor order on (page, region) pairs. */
  predicate Before(a: (nat, nat), b: (nat, nat))
  {
    a.0 < b.0 || (a.0 == b.0 && a.1 < b.1)
  }

  /** Number of regions r < n that satisfy q. */
  function CountWhere(n: nat, q: nat -> bool): (c: nat)
    ensures c <= n
  {
    if n == 0 then 0 else CountWhere(n - 1, q) + (if q(n - 1) then 1 else 0)
  }

  /** One more region of page p appends that region's value, if any. */
  lemma RowStep<T>(p: nat, n: nat, cell: (nat, nat) -> Option<T>)
    ensures Row(p, n + 1, cell) == Row(p, n, cell) + Kept(cell(p, n))
  {
  }

  lemma {:induction false} RowOrder<T>(p: nat, n: nat, cell: (nat, nat) -> Option<T>)
    ensures var out, at := Row(p, n, cell), Row(p, n, Tag(cell));
      |at| == |out|
      && (forall i :: 0 <= i < |at| ==> at[i].0 == p && at[i].1 < n && cell(p, at[i].1) == Some(out[i]))
      && (forall i, j :: 0 <= i < j < |at| ==> at[i].1 < at[j].1)
      && (forall r :: 0 <= r < n && cell(p, r).Some? ==> (p, r) in at)
  {
    if n > 0 {
      RowOrder(p, n - 1, cell);
      var out, at := Row(p, n, cell), Row(p, n, Tag(cell));
      var out', at' := Row(p, n - 1, cell), Row(p, n - 1, Tag(cell));
      assert out == out' + Kept(cell(p, n - 1));
      assert at == at' + Kept(Tag(cell)(p, n - 1));
      forall r | 0 <= r < n && cell(p, r).Some? ensures (p, r) in at {
        if r < n - 1 {
          assert (p, r) in at';
        } else {
          assert at[|at| - 1] == (p, r);
        }
      }
    }
  }

  lemma {:induction false} CollectOrigins<T>(pages: nat, regions: nat, cell: (nat, nat) -> Option<T>)
    ensures var out, at := Collect(pages, regions, cell), Origins(pages, regions, cell);
      |at| == |out|
      && forall i :: 0 <= i < |at| ==> at[i].0 < pages && at[i].1 < regions && cell(at[i].0, at[i].1) == Some(out[i])
  {
    if pages > 0 {
      CollectOrigins(pages - 1, regions, cell);
      RowOrder(pages - 1, regions, cell);
      var out, at := Collect(pages, regions, cell), Origins(pages, regions, cell);
      var out', at' := Collect(pages - 1, regions, cell), Origins(pages - 1, regions, cell);
      var rowOut, rowAt := Row(pages - 1, regions, cell), Row(pages - 1, regions, Tag(cell));
      assert out == out' + rowOut;
      assert at == at' + rowAt;
      forall i | 0 <= i < |at|
        ensures at[i].0 < pages && at[i].1 < regions && cell(at[i].0, at[i].1) == Some(out[i])
      {
        if i >= |at'| {
          assert at[i] == rowAt[i - |at'|] && out[i] == rowOut[i - |at'|];
        } else {
          assert at[i] == at'[i] && out[i] == out'[i];
        }
      }
    }
  }

  lemma {:induction false} CollectSorted<T>(pages: nat, regions: nat, cell: (nat, nat) -> Option<T>)
    ensures var at := Origins(pages, regions, cell);
      forall i, j :: 0 <= i < j < |at| ==> Before(at[i], at[j])
  {
    if pages > 0 {
      CollectSorted(pages - 1, regions, cell);
      CollectOrigins(pages - 1, regions, cell);
      RowOrder(pages - 1, regions, cell);
      var at, at' := Origins(pages, regions, cell), Origins(pages - 1, regions, cell);
      var rowAt := Row(pages - 1, regions, Tag(cell));
      assert at == at' + rowAt;
      forall i, j | 0 <= i < j < |at| ensures Before(at[i], at[j]) {
        if j < |at'| {
          assert at[i] == at'[i] && at[j] == at'[j];
        } else if i < |at'| {
          assert at[i] == at'[i] && at[i].0 < pages - 1;
          assert at[j] == rowAt[j - |at'|];
        } else {
          assert at[i] == rowAt[i - |at'|] && at[j] == rowAt[j - |at'|];
        }
      }
    }
  }

  lemma {:induction false} CollectComplete<T>(pages: nat, regions: nat, cell: (nat, nat) -> Option<T>)
    ensures forall p, r :: 0 <= p < pages && 0 <= r < regions && cell(p, r).Some? ==> (p, r) in Origins(pages, regions, cell)
  {
    if pages > 0 {
      CollectComplete(pages - 1, regions, cell);
      RowOrder(pages - 1, regions, cell);
      var at, at' := Origins(pages, regions, cell), Origins(pages - 1, regions, cell);
      var rowAt := Row(pages - 1, regions, Tag(cell));
      assert at == at' + rowAt;
      forall p, r | 0 <= p < pages && 0 <= r < regions && cell(p, r).Some? ensures (p, r) in at {
        if p < pages - 1 {
          assert (p, r) in at';
        } else {
          assert (p, r) in rowAt;
        }
      }
    }
  }

  /** The output of `Collect` is exactly the values of the cells that yield
      one, in page-major, region-minor order: the i-th value comes from the
      pair Origins[i], those pairs are strictly increasing in that order, and
      every pair whose cell yields a value is among them. */
  lemma CollectOrder<T>(pages: nat, regions: nat, cell: (nat, nat) -> Option<T>)
    ensures var out, at := Collect(pages, regions, cell), Origins(pages, regions, cell);
      |at| == |out|
      && (forall i :: 0 <= i < |at| ==> at[i].0 < pages && at[i].1 < regions && cell(at[i].0, at[i].1) == Some(out[i]))
      && (forall i, j :: 0 <= i < j < |at| ==> Before(at[i], at[j]))
      && (forall p, r :: 0 <= p < pages && 0 <= r < regions && cell(p, r).Some? ==> (p, r) in at)
  {
    CollectOrigins(pages, regions, cell);
    CollectSorted(pages, regions, cell);
    CollectComplete(pages, regions, cell);
  }

  /** Filtering the collected values keeps the loop's order: the i-th kept
      value comes from the cell at pair at[i], and those pairs are strictly
      increasing in page-major, region-minor order. */
  lemma CollectFilterOrigins<T, R>(pages: nat, regions: nat, cell: (nat, nat) -> Option<T>, f: T -> Option<R>)
      returns (at: seq<(nat, nat)>)
    ensures var kept := FilterMap(f, Collect(pages, regions, cell));
      |at| == |kept|
      && (forall i :: 0 <= i < |at| ==>
            at[i].0 < pages && at[i].1 < regions && cell(at[i].0, at[i].1).Some?
            && f(cell(at[i].0, at[i].1).value) == Some(kept[i]))
      && (forall i, j :: 0 <= i < j < |at| ==> Before(at[i], at[j]))
  {
    var out, org := Collect(pages, regions, cell), Origins(pages, regions, cell);
    CollectOrder(pages, regions, cell);
    FilterMapPicked(f, out);
    var pk := Picked(f, out);
    at := seq(|pk|, i requires 0 <= i < |pk| => org[pk[i]]);
    forall i, j | 0 <= i < j < |at| ensures Before(at[i], at[j]) {
      assert at[i] == org[pk[i]] && at[j] == org[pk[j]];
    }
  }

  /** A value is in the output if and only if some pair's cell yields it. */
  lemma CollectMembership<T>(pages: nat, regions: nat, cell: (nat, nat) -> Option<T>, x: T)
    ensures x in Collect(pages, regions, cell)
        <==> exists p, r :: 0 <= p < pages && 0 <= r < regions && cell(p, r) == Some(x)
  {
    CollectOrder(pages, regions, cell);
    var out, at := Collect(pages, regions, cell), Origins(pages, regions, cell);
    if x in out {
      var i :| 0 <= i < |out| && out[i] == x;
      assert cell(at[i].0, at[i].1) == Some(x);
    }
    if exists p, r :: 0 <= p < pages && 0 <= r < regions && cell(p, r) == Some(x) {
      var p, r :| 0 <= p < pages && 0 <= r < regions && cell(p, r) == Some(x);
      var i :| 0 <= i < |at| && at[i] == (p, r);
      assert out[i] == x;
    }
  }

  lemma {:induction false} RowCount<T>(p: nat, n: nat, cell: (nat, nat) -> Option<T>, q: nat -> bool)
    requires forall r :: 0 <= r < n && cell(p, r).Some? ==> q(r)
    ensures |Row(p, n, cell)| <= CountWhere(n, q)
    ensures (forall r :: 0 <= r < n && q(r) ==> cell(p, r).Some?) ==> |Row(p, n, cell)| == CountWhere(n, q)
  {
    if n > 0 {
      RowCount(p, n - 1, cell, q);
    }
  }

  /** When a cell can yield a value only for regions satisfying q, the run
      produces at most pages * (number of such regions) values, and exactly
      that many when every such region's cell does yield one. */
  lemma {:induction false} CollectCount<T>(pages: nat, regions: nat, cell: (nat, nat) -> Option<T>, q: nat -> bool)
    requires forall p, r :: 0 <= r < regions && cell(p, r).Some? ==> q(r)
    ensures |Collect(pages, regions, cell)| <= pages * CountWhere(regions, q)
    ensures (forall p, r :: 0 <= p < pages && 0 <= r < regions && q(r) ==> cell(p, r).Some?)
      ==> |Collect(pages, regions, cell)| == pages * CountWhere(regions, q)
  {
    if pages > 0 {
      CollectCount(pages - 1, regions, cell, q);
      RowCount(pages - 1, regions, cell, q);
      assert (pages - 1) * CountWhere(regions, q) + CountWhere(regions, q) == pages * CountWhere(regions, q);
    }
  }

  /** Every region counts when the predicate holds of all of them. */
  lemma {:induction false} CountAll(n: nat, q: nat -> bool)
    requires forall r :: 0 <= r < n ==> q(r)
    ensures CountWhere(n, q) == n
  {
    if n > 0 {
      CountAll(n - 1, q);
    }
  }

  /** No region counts when the predicate holds of none of them. */
  lemma {:induction false} CountNone(n: nat, q: nat -> bool)
    requires forall r :: 0 <= r < n ==> !q(r)
    ensures CountWhere(n, q) == 0
  {
    if n > 0 {
      CountNone(n - 1, q);
    }
  }

  /** When every cell yields a value, the value for (p, r) sits at index
      p * regions + r. */
  lemma {:induction false} CollectIndex<T>(pages: nat, regions: nat, cell: (nat, nat) -> Option<T>, p: nat, r: nat)
    requires forall p', r' :: 0 <= p' < pages && 0 <= r' < regions ==> cell(p', r').Some?
    requires p < pages && r < regions
    ensures p * regions + r < pages * regions
    ensures |Collect(pages, regions, cell)| == pages * regions
    ensures Collect(pages, regions, cell)[p * regions + r] == cell(p, r).value
  {
    IndexBound(p, r, pages, regions);
    var all := (r': nat) => true;
    CountAll(regions, all);
    CollectCount(pages, regions, cell, all);
    CollectCount(p, regions, cell, all);
    CollectCount(p + 1, regions, cell, all);
    RowCount(p, regions, cell, all);
    RowIndex(p, regions, cell, r);
    var prefix := Collect(p, regions, cell) + Row(p, regions, cell);
    assert Collect(p + 1, regions, cell) == prefix;
    CollectPrefix(p + 1, pages, regions, cell);
    assert prefix[p * regions + r] == Row(p, regions, cell)[r];
  }

  lemma MulMonotone(x: int, y: int, k: nat)
    requires x <= y
    ensures x * k <= y * k
  {
    assert y * k - x * k == (y - x) * k;
  }

  /** Row-major indices of a pages x regions grid stay inside it. */
  lemma IndexBound(p: nat, r: nat, pages: nat, regions: nat)
    requires p < pages && r < regions
    ensures p * regions + r < pages * regions
  {
    var last := pages - 1;
    assert pages * regions == last * regions + regions;
    MulMonotone(p, last, regions);
  }

  lemma {:induction false} RowIndex<T>(p: nat, n: nat, cell: (nat, nat) -> Option<T>, r: nat)
    requires forall r' :: 0 <= r' < n ==> cell(p, r').Some?
    requires r < n
    ensures |Row(p, n, cell)| == n
    ensures Row(p, n, cell)[r] == cell(p, r).value
  {
    var all := (r': nat) => true;
    CountAll(n, all);
    RowCount(p, n, cell, all);
    if r < n - 1 {
      RowIndex(p, n - 1, cell, r);
    }
  }

  /** Running over fewer pages yields a prefix of the output. */
  lemma {:induction false} CollectPrefix<T>(m: nat, pages: nat, regions: nat, cell: (nat, nat) -> Option<T>)
    requires m <= pages
    ensures Collect(m, regions, cell) <= Collect(pages, regions, cell)
  {
    if m < pages {
      CollectPrefix(m, pages - 1, regions, cell);
    }
  }
}
