/** The POST /detect handler: extension dispatch, the PDF page loop with its
    page cap, page stamping, and assembly of the response. */
module DetectRequest {
  import opened BarcodeTypes
  import opened Text
  import opened ImageDetection

  /** Only the first three pages of a PDF are scanned. */
  const MaxPdfPages: nat := 3

  const StatusBadRequest: nat := 400

  /** Which branch raised: the PDF branch or the image branch. */
  datatype Subsystem = PdfProcessing | ImageProcessing

  /** The JSON body of a successful request. */
  datatype Response = Response(detected: bool, count: nat, barcodes: seq<Record>)

  /** What the handler answers: a response body, or an HTTP error. */
  datatype Reply = Success(body: Response) | HttpError(status: nat, subsystem: Subsystem)

  /** The lowercased text after the last '.', or "unknown" when there is no
      filename or it is empty. */
  function Extension(filename: Option<string>): string
  {
    if filename.Some? && filename.value != "" then AsciiLower(AfterLast(filename.value, '.'))
    else "unknown"
  }

  /** The PDF branch is taken exactly when the text after the last '.' of a
      non-empty filename (all of it, when it has no '.') is "pdf" in any case. */
  lemma PdfBranchCondition(filename: Option<string>)
    ensures Extension(filename) == "pdf" <==>
      && filename.Some? && filename.value != ""
      && var e := AfterLast(filename.value, '.');
         |e| == 3 && e[0] in "pP" && e[1] in "dD" && e[2] in "fF"
  {
    if filename.Some? && filename.value != "" {
      LowerIsPdf(AfterLast(filename.value, '.'));
    }
  }

  /** A record stamped with page number `page`. */
  function Stamp(r: Record, page: nat): Record
  {
    r.(page := Some(page))
  }

  /** The records of `recs`, each stamped with page number `page`. */
  function Stamped(recs: seq<Record>, page: nat): (out: seq<Record>)
    ensures |out| == |recs|
    ensures forall i :: 0 <= i < |recs| ==> out[i] == Stamp(recs[i], page)
    decreases |recs|
  {
    if recs == [] then [] else Stamped(recs[..|recs| - 1], page) + [Stamp(recs[|recs| - 1], page)]
  }

  /** A page outcome with its records stamped `page`; a failure stays a failure. */
  function StampedOutcome(outcome: Option<seq<Record>>, page: nat): Option<seq<Record>>
  {
    match outcome
    case None => None
    case Some(rs) => Some(Stamped(rs, page))
  }

  /** The pages the loop scans: the first `MaxPdfPages` of the document. */
  function ScannedPages(pages: seq<Image>): (scanned: seq<Image>)
    ensures |scanned| == if |pages| <= MaxPdfPages then |pages| else MaxPdfPages
    ensures scanned == pages[..|scanned|]
  {
    if |pages| <= MaxPdfPages then pages else pages[..MaxPdfPages]
  }

  /** The outcome of the per-image pipeline on each page, in order. */
  function PageResults(caps: Capabilities, pages: seq<Image>): (results: seq<Option<seq<Record>>>)
    ensures |results| == |pages|
    decreases |pages|
  {
    if pages == [] then []
    else PageResults(caps, pages[..|pages| - 1]) + [ImageResults(caps, pages[|pages| - 1])]
  }

  /** Outcome k is the pipeline's result on page k+1. */
  lemma {:induction false} PageResultsAt(caps: Capabilities, pages: seq<Image>, k: nat)
    requires k < |pages|
    ensures PageResults(caps, pages)[k] == ImageResults(caps, pages[k])
    decreases |pages|
  {
    var init := pages[..|pages| - 1];
    if k < |init| {
      PageResultsAt(caps, init, k);
      assert init[k] == pages[k];
    }
  }

  /** Every outcome is the pipeline's result on its page. */
  lemma PageResultsSpec(caps: Capabilities, pages: seq<Image>)
    ensures forall k :: 0 <= k < |pages| ==> PageResults(caps, pages)[k] == ImageResults(caps, pages[k])
  {
    forall k | 0 <= k < |pages| ensures PageResults(caps, pages)[k] == ImageResults(caps, pages[k]) {
      PageResultsAt(caps, pages, k);
    }
  }

  /** The accumulated barcodes once the page loop has seen the per-page
      outcomes `results` (results[k] being page k+1's): each page's records
      stamped with its number and appended; None as soon as a page raised. */
  function Aggregate(results: seq<Option<seq<Record>>>): Option<seq<Record>>
    decreases |results|
  {
    if results == [] then Some([])
    else
      match Aggregate(results[..|results| - 1])
      case None => None
      case Some(acc) =>
        match results[|results| - 1]
        case None => None
        case Some(rs) => Some(acc + Stamped(rs, |results|))
  }

  /** One more page outcome: the loop goes on from the earlier pages' records. */
  lemma AggregateSnoc(results: seq<Option<seq<Record>>>, next: Option<seq<Record>>)
    ensures Aggregate(results + [next]) ==
      if Aggregate(results).Some? && next.Some? then
        Some(Aggregate(results).value + Stamped(next.value, |results| + 1))
      else None
  {
    assert (results + [next])[..|results|] == results;
  }

  /** One step of the page loop over the outcomes `results`: after the
      first `i` pages gave `acc`, a successful page i+1 appends its records
      stamped i+1. */
  lemma AggregateStep(results: seq<Option<seq<Record>>>, i: nat, acc: seq<Record>)
    requires i < |results| && Aggregate(results[..i]) == Some(acc) && results[i].Some?
    ensures Aggregate(results[..i + 1]) == Some(acc + Stamped(results[i].value, i + 1))
  {
    assert results[..i + 1] == results[..i] + [results[i]];
    AggregateSnoc(results[..i], results[i]);
  }

  /** A page that raises aborts the whole page loop. */
  lemma AggregateAbort(results: seq<Option<seq<Record>>>, i: nat)
    requires i < |results| && results[i].None?
    ensures Aggregate(results) == None
  {
    AggregateSucceedIff(results);
  }

  /** The outcome of scanned page k+1 is the pipeline's result on page k+1. */
  lemma ScannedPageResult(caps: Capabilities, pages: seq<Image>, k: nat)
    requires k < |pages| && k < MaxPdfPages
    ensures k < |ScannedPages(pages)|
    ensures PageResults(caps, ScannedPages(pages))[k] == ImageResults(caps, pages[k])
  {
    var scanned := ScannedPages(pages);
    PageResultsAt(caps, scanned, k);
    assert scanned[k] == pages[k];
  }

  /** One step of the page loop over a document: once the first `k` pages
      gave `acc`, the stamped outcome of page k+1 aborts the whole scan or
      extends `acc`. */
  lemma PageStep(caps: Capabilities, images: seq<Image>, k: nat, acc: seq<Record>, stamped: Option<seq<Record>>)
    requires k < |images| && k < MaxPdfPages
    requires Aggregate(PageResults(caps, ScannedPages(images))[..k]) == Some(acc)
    requires stamped == StampedOutcome(ImageResults(caps, images[k]), k + 1)
    ensures k < |ScannedPages(images)|
    ensures stamped.None? ==> PdfBarcodes(caps, ScannedPages(images)) == None
    ensures stamped.Some? ==> Aggregate(PageResults(caps, ScannedPages(images))[..k + 1]) == Some(acc + stamped.value)
    ensures stamped.Some? && k + 1 == MaxPdfPages ==> PdfBarcodes(caps, ScannedPages(images)) == Some(acc + stamped.value)
  {
    ScannedPageResult(caps, images, k);
    var results := PageResults(caps, ScannedPages(images));
    if results[k].None? {
      AggregateAbort(results, k);
    } else {
      AggregateStep(results, k, acc);
      if k + 1 == MaxPdfPages {
        assert results[..k + 1] == results;
      }
    }
  }

  /** The accumulated barcodes after the page loop has processed `pages`. */
  function PdfBarcodes(caps: Capabilities, pages: seq<Image>): Option<seq<Record>>
  {
    Aggregate(PageResults(caps, pages))
  }

  /** The response body for the collected barcodes. */
  function Assemble(all: seq<Record>): (resp: Response)
    ensures resp.barcodes == all
    ensures resp.count == |all|
    ensures resp.detected <==> resp.count > 0
  {
    if all == [] then Response(false, 0, []) else Response(true, |all|, all)
  }

  /** What the handler answers for an upload named `filename` with contents `file`. */
  function Detect(caps: Capabilities, filename: Option<string>, file: seq<byte>): Reply
  {
    if Extension(filename) == "pdf" then
      match caps.rasterize(file)
      case None => HttpError(StatusBadRequest, PdfProcessing)
      case Some(pages) =>
        match PdfBarcodes(caps, ScannedPages(pages))
        case None => HttpError(StatusBadRequest, PdfProcessing)
        case Some(all) => Success(Assemble(all))
    else
      match caps.openImage(file)
      case None => HttpError(StatusBadRequest, ImageProcessing)
      case Some(img) =>
        match ImageResults(caps, img)
        case None => HttpError(StatusBadRequest, ImageProcessing)
        case Some(rs) => Success(Assemble(Stamped(rs, 1)))
  }

  /** The page number stamped on a record, 0 when it has none. */
  function PageOf(r: Record): nat
  {
    if r.page.Some? then r.page.value else 0
  }

  /** The records of `all` stamped with page `page`, in order. */
  function OnPage(all: seq<Record>, page: nat): seq<Record>
    decreases |all|
  {
    if all == [] then []
    else OnPage(all[..|all| - 1], page) + (if all[|all| - 1].page == Some(page) then [all[|all| - 1]] else [])
  }

  /** The records of a page in a concatenation are that page's records of each part, in order. */
  lemma {:induction false} OnPageAppend(a: seq<Record>, b: seq<Record>, page: nat)
    ensures OnPage(a + b, page) == OnPage(a, page) + OnPage(b, page)
    decreases |b|
  {
    if b == [] {
      assert a + b == a;
    } else {
      var b0 := b[..|b| - 1];
      assert (a + b)[..|a + b| - 1] == a + b0;
      OnPageAppend(a, b0, page);
    }
  }

  /** A list holding no record of `page` has none on that page. */
  lemma {:induction false} OnPageNone(all: seq<Record>, page: nat)
    requires forall i :: 0 <= i < |all| ==> all[i].page != Some(page)
    ensures OnPage(all, page) == []
    decreases |all|
  {
    if all != [] {
      OnPageNone(all[..|all| - 1], page);
    }
  }

  /** A list whose records all carry `page` is all on that page. */
  lemma {:induction false} OnPageAll(all: seq<Record>, page: nat)
    requires forall i :: 0 <= i < |all| ==> all[i].page == Some(page)
    ensures OnPage(all, page) == all
    decreases |all|
  {
    if all != [] {
      OnPageAll(all[..|all| - 1], page);
    }
  }

  /** The page loop succeeds exactly when every page's outcome is a success. */
  lemma {:induction false} AggregateSucceedIff(results: seq<Option<seq<Record>>>)
    ensures Aggregate(results).Some? <==> forall k :: 0 <= k < |results| ==> results[k].Some?
    decreases |results|
  {
    if results != [] {
      var init := results[..|results| - 1];
      AggregateSucceedIff(init);
      assert forall k :: 0 <= k < |init| ==> init[k] == results[k];
    }
  }

  /** Records of pages 1..n-1 in page order, followed by records stamped
      n, are records of pages 1..n in page order. */
  lemma AppendNextPage(acc: seq<Record>, st: seq<Record>, n: nat)
    requires forall i :: 0 <= i < |acc| ==> acc[i].page.Some? && 1 <= PageOf(acc[i]) < n
    requires forall i, j :: 0 <= i <= j < |acc| ==> PageOf(acc[i]) <= PageOf(acc[j])
    requires 1 <= n && forall i :: 0 <= i < |st| ==> st[i].page == Some(n)
    ensures var all := acc + st;
      && (forall i :: 0 <= i < |all| ==> all[i].page.Some? && 1 <= PageOf(all[i]) <= n)
      && (forall i, j :: 0 <= i <= j < |all| ==> PageOf(all[i]) <= PageOf(all[j]))
  {
    var all := acc + st;
    forall i | 0 <= i < |all| ensures all[i].page.Some? && 1 <= PageOf(all[i]) <= n {
      if i < |acc| {
        assert all[i] == acc[i];
      } else {
        assert all[i] == st[i - |acc|];
      }
    }
    forall i, j | 0 <= i <= j < |all| ensures PageOf(all[i]) <= PageOf(all[j]) {
      if j < |acc| {
        assert all[i] == acc[i] && all[j] == acc[j];
      } else if i < |acc| {
        assert all[i] == acc[i] && all[j] == st[j - |acc|];
      } else {
        assert all[i] == st[i - |acc|] && all[j] == st[j - |acc|];
      }
    }
  }

  /** Every record of a successful loop carries a page number in
      1..|results|, and page numbers never decrease along the list. */
  lemma {:induction false} AggregatePageOrder(results: seq<Option<seq<Record>>>)
    requires Aggregate(results).Some?
    ensures var all := Aggregate(results).value;
      && (forall i :: 0 <= i < |all| ==> all[i].page.Some? && 1 <= PageOf(all[i]) <= |results|)
      && (forall i, j :: 0 <= i <= j < |all| ==> PageOf(all[i]) <= PageOf(all[j]))
    decreases |results|
  {
    var n := |results|;
    if n > 0 {
      var init := results[..n - 1];
      AggregatePageOrder(init);
      var acc := Aggregate(init).value;
      var st := Stamped(results[n - 1].value, n);
      assert Aggregate(results).value == acc + st;
      AppendNextPage(acc, st, n);
    }
  }

  /** Appending a page's stamped records after records of earlier pages
      adds them to that page and to no other. */
  lemma OnPageAfterEarlierPages(acc: seq<Record>, rs: seq<Record>, n: nat, page: nat)
    requires forall i :: 0 <= i < |acc| ==> PageOf(acc[i]) < n
    ensures OnPage(acc + Stamped(rs, n), page) ==
      if page == n then Stamped(rs, n) else OnPage(acc, page)
  {
    var st := Stamped(rs, n);
    OnPageAppend(acc, st, page);
    if page == n {
      OnPageNone(acc, n);
      OnPageAll(st, n);
      assert OnPage(acc, page) + OnPage(st, page) == st;
    } else {
      OnPageNone(st, page);
      assert OnPage(acc, page) + OnPage(st, page) == OnPage(acc, page);
    }
  }

  /** The records of page k+1 in a successful loop are exactly page k+1's
      results, in order, stamped k+1, so identical payloads on different
      pages are all kept. With `AggregatePageOrder` (page values never
      decrease) this makes the list the concatenation of the pages'
      results in page order. */
  lemma {:induction false} AggregatePerPage(results: seq<Option<seq<Record>>>, k: nat)
    requires Aggregate(results).Some? && k < |results|
    ensures results[k].Some?
    ensures OnPage(Aggregate(results).value, k + 1) == Stamped(results[k].value, k + 1)
    decreases |results|
  {
    var init := results[..|results| - 1];
    AggregateLastPage(results, k + 1);
    if k + 1 < |results| {
      assert init[k] == results[k];
      AggregatePerPage(init, k);
    }
  }

  /** In a successful loop, the last page's records are that page's stamped
      results, and every other page's records are as after the earlier pages. */
  lemma AggregateLastPage(results: seq<Option<seq<Record>>>, page: nat)
    requires Aggregate(results).Some? && results != []
    ensures var init, last := results[..|results| - 1], results[|results| - 1];
      && Aggregate(init).Some? && last.Some?
      && OnPage(Aggregate(results).value, page) ==
           if page == |results| then Stamped(last.value, page) else OnPage(Aggregate(init).value, page)
  {
    var n := |results|;
    var init := results[..n - 1];
    AggregateLast(results);
    AggregatePagesBelow(init);
    OnPageAfterEarlierPages(Aggregate(init).value, results[n - 1].value, n, page);
  }

  /** A successful loop over at least one page is the loop over the earlier
      pages followed by the last page's stamped records. */
  lemma AggregateLast(results: seq<Option<seq<Record>>>)
    requires Aggregate(results).Some? && results != []
    ensures var init, last := results[..|results| - 1], results[|results| - 1];
      && Aggregate(init).Some? && last.Some?
      && Aggregate(results).value == Aggregate(init).value + Stamped(last.value, |results|)
  {
  }

  /** Every page number in a successful loop is below the number of pages plus one. */
  lemma AggregatePagesBelow(results: seq<Option<seq<Record>>>)
    requires Aggregate(results).Some?
    ensures var all := Aggregate(results).value;
      forall i :: 0 <= i < |all| ==> PageOf(all[i]) < |results| + 1
  {
    AggregatePageOrder(results);
  }

  /** The records of each page have distinct `data`, and their indices
      restart at 0 on each page and run 0..n-1 in order. */
  lemma PdfPagesIndexedFromZero(caps: Capabilities, pages: seq<Image>, k: nat)
    requires PdfBarcodes(caps, pages).Some? && k < |pages|
    ensures var onPage := OnPage(PdfBarcodes(caps, pages).value, k + 1);
      && (forall j :: 0 <= j < |onPage| ==> onPage[j].index == j)
      && (forall a, b :: 0 <= a < b < |onPage| ==> onPage[a].data != onPage[b].data)
  {
    AggregatePerPage(PageResults(caps, pages), k);
    PageResultsAt(caps, pages, k);
    ImageResultsDistinctAndDense(caps, pages[k]);
  }

  /** Pages after the third never influence the answer: however many more
      pages the document has, the loop's outcome is the same. */
  lemma PagesBeyondCapIgnored(caps: Capabilities, pages: seq<Image>, more: seq<Image>)
    requires |pages| >= MaxPdfPages
    ensures PdfBarcodes(caps, ScannedPages(pages + more)) == PdfBarcodes(caps, ScannedPages(pages))
  {
    assert ScannedPages(pages + more) == ScannedPages(pages);
  }

  /** Every reply is a response whose count is the length of its list and
      whose detected flag says whether the list is non-empty (so a request
      with no detections answers {false, 0, []}), or an error with status 400. */
  lemma ReplyShape(caps: Capabilities, filename: Option<string>, file: seq<byte>)
    ensures match Detect(caps, filename, file)
      case Success(resp) =>
        && resp.count == |resp.barcodes|
        && resp.detected == (resp.count > 0)
        && (resp.barcodes == [] ==> resp == Response(false, 0, []))
      case HttpError(status, _) => status == 400
  {
    if Extension(filename) == "pdf" {
      if caps.rasterize(file).Some? {
        var outcome := PdfBarcodes(caps, ScannedPages(caps.rasterize(file).value));
        if outcome.Some? {
          assert Detect(caps, filename, file) == Success(Assemble(outcome.value));
        }
      }
    } else if caps.openImage(file).Some? {
      var outcome := ImageResults(caps, caps.openImage(file).value);
      if outcome.Some? {
        assert Detect(caps, filename, file) == Success(Assemble(Stamped(outcome.value, 1)));
      }
    }
  }

  /** A PDF request fails with 400 when rasterizing fails or any of the
      first three pages fails; otherwise its barcodes come from those pages
      only, every page value is in 1..n for the n <= 3 scanned pages, page
      values never decrease, and the
      records of page k+1 are the results of page k+1, stamped. */
  lemma PdfRequest(caps: Capabilities, filename: Option<string>, file: seq<byte>)
    requires Extension(filename) == "pdf"
    ensures caps.rasterize(file).None? ==> Detect(caps, filename, file) == HttpError(400, PdfProcessing)
    ensures caps.rasterize(file).Some? ==>
      var scanned := ScannedPages(caps.rasterize(file).value);
      if exists k :: 0 <= k < |scanned| && ImageResults(caps, scanned[k]).None? then
        Detect(caps, filename, file) == HttpError(400, PdfProcessing)
      else
        && Detect(caps, filename, file).Success?
        && var all := Detect(caps, filename, file).body.barcodes;
        && (forall i :: 0 <= i < |all| ==> all[i].page.Some? && 1 <= PageOf(all[i]) <= |scanned| <= MaxPdfPages)
        && (forall i, j :: 0 <= i <= j < |all| ==> PageOf(all[i]) <= PageOf(all[j]))
        && (forall k :: 0 <= k < |scanned| ==>
              ImageResults(caps, scanned[k]).Some? &&
              OnPage(all, k + 1) == Stamped(ImageResults(caps, scanned[k]).value, k + 1))
  {
    if caps.rasterize(file).Some? {
      var scanned := ScannedPages(caps.rasterize(file).value);
      var results := PageResults(caps, scanned);
      PageResultsSpec(caps, scanned);
      AggregateSucceedIff(results);
      if Aggregate(results).Some? {
        AggregatePageOrder(results);
        forall k | 0 <= k < |scanned|
          ensures ImageResults(caps, scanned[k]).Some?
          ensures OnPage(Aggregate(results).value, k + 1) == Stamped(ImageResults(caps, scanned[k]).value, k + 1)
        {
          AggregatePerPage(results, k);
        }
      }
    }
  }

  /** A request that is not a PDF fails with 400 when the upload does not
      open as an image or its processing raises; otherwise its barcodes are
      the image's results in order, all stamped page 1, indexed 0..n-1 and
      with distinct `data`. */
  lemma ImageRequest(caps: Capabilities, filename: Option<string>, file: seq<byte>)
    requires Extension(filename) != "pdf"
    ensures caps.openImage(file).None? ==> Detect(caps, filename, file) == HttpError(400, ImageProcessing)
    ensures caps.openImage(file).Some? ==>
      var img := caps.openImage(file).value;
      if ImageResults(caps, img).None? then
        Detect(caps, filename, file) == HttpError(400, ImageProcessing)
      else
        && Detect(caps, filename, file).Success?
        && var all := Detect(caps, filename, file).body.barcodes;
        && |all| == |ImageResults(caps, img).value|
        && (forall i :: 0 <= i < |all| ==>
              all[i].page == Some(1) && all[i] == Stamp(ImageResults(caps, img).value[i], 1))
        && (forall i :: 0 <= i < |all| ==> all[i].index == i)
        && (forall a, b :: 0 <= a < b < |all| ==> all[a].data != all[b].data)
  {
    if caps.openImage(file).Some? && ImageResults(caps, caps.openImage(file).value).Some? {
      ImageResultsDistinctAndDense(caps, caps.openImage(file).value);
    }
  }

  /** Stamps every record of one page with its page number. */
  method StampPage(recs: seq<Record>, page: nat) returns (out: seq<Record>)
    ensures out == Stamped(recs, page)
  {
    out := [];
    for i := 0 to |recs|
      invariant out == Stamped(recs[..i], page)
    {
      assert recs[..i + 1][..i] == recs[..i];
      out := out + [Stamp(recs[i], page)];
    }
    assert recs[..|recs|] == recs;
  }

  /** One page: the per-image pipeline, then its records stamped with the
      page number. */
  method ScanPage(caps: Capabilities, image: Image, page: nat) returns (stamped: Option<seq<Record>>)
    ensures stamped == StampedOutcome(ImageResults(caps, image), page)
  {
    var barcodes := DetectBarcodesInImage(caps, image);
    if barcodes.None? {
      return None;
    }
    var out := StampPage(barcodes.value, page);
    return Some(out);
  }

  /** The page loop: each rasterized page in order through the per-image
      pipeline, its records stamped with the 1-based page number and
      appended; a page that raises aborts the loop, and the cap check after
      the third page leaves it with what has been collected (nothing follows
      the loop but handing that back, so the break is a return here). */
  method ScanPdfPages(caps: Capabilities, images: seq<Image>) returns (result: Option<seq<Record>>)
    ensures result == PdfBarcodes(caps, ScannedPages(images))
  {
    ghost var results := PageResults(caps, ScannedPages(images));
    var allBarcodes: seq<Record> := [];
    for pageNum := 0 to |images|
      invariant pageNum < MaxPdfPages
      invariant Aggregate(results[..pageNum]) == Some(allBarcodes)
    {
      var stamped := ScanPage(caps, images[pageNum], pageNum + 1);
      PageStep(caps, images, pageNum, allBarcodes, stamped);
      if stamped.None? {
        return None;
      }
      allBarcodes := allBarcodes + stamped.value;
      if pageNum + 1 >= MaxPdfPages {
        return Some(allBarcodes);
      }
    }
    assert results[..|images|] == results;
    return Some(allBarcodes);
  }

  /** The handler: dispatch on the extension, run the page loop or the
      single image, then assemble the body. */
  method DetectBarcodes(caps: Capabilities, filename: Option<string>, file: seq<byte>)
    returns (reply: Reply)
    ensures reply == Detect(caps, filename, file)
  {
    var fileExtension := Extension(filename);
    var allBarcodes: seq<Record>;
    if fileExtension == "pdf" {
      var rasterized := caps.rasterize(file);
      if rasterized.None? {
        return HttpError(StatusBadRequest, PdfProcessing);
      }
      var scanned := ScanPdfPages(caps, rasterized.value);
      if scanned.None? {
        return HttpError(StatusBadRequest, PdfProcessing);
      }
      allBarcodes := scanned.value;
    } else {
      var image := caps.openImage(file);
      if image.None? {
        return HttpError(StatusBadRequest, ImageProcessing);
      }
      var stamped := ScanPage(caps, image.value, 1);
      if stamped.None? {
        return HttpError(StatusBadRequest, ImageProcessing);
      }
      allBarcodes := stamped.value;
    }
    reply := Success(Assemble(allBarcodes));
  }
}
