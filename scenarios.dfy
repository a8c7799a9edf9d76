/** Whole-request consequences for the situations the service is designed
    around: a code shown twice, an image with no codes, a long document. */
module DetectScenarios {
  import opened BarcodeTypes
  import opened PayloadDedup
  import opened ImageDetection
  import opened DetectRequest
  import opened Text

  /** An image on which the decoder reports the same payload twice answers
      one barcode: index 0, page 1, the first detection's payload and rectangle. */
  lemma SameCodeTwice(caps: Capabilities, filename: Option<string>, file: seq<byte>,
                      img: Image, d1: RawDetection, d2: RawDetection)
    requires Extension(filename) != "pdf"
    requires caps.openImage(file) == Some(img)
    requires caps.decode(img) == Some([d1, d2])
    requires caps.normalize(d1.payload) == caps.normalize(d2.payload)
    requires caps.encode(img, BoxIn(img, d1)).Some?
    ensures Detect(caps, filename, file).Success?
    ensures var resp := Detect(caps, filename, file).body;
      && resp.detected && resp.count == 1
      && resp.barcodes[0].index == 0
      && resp.barcodes[0].page == Some(1)
      && resp.barcodes[0].data == caps.normalize(d1.payload)
      && resp.barcodes[0].rect == d1.rect
  {
    DedupSamePayloadTwice(caps.normalize, d1, d2);
    SingleRecord(caps, img, d1);
    var rec := MakeRecord(caps, img, d1, 0).value;
    assert Stamped([rec], 1) == [Stamp(rec, 1)];
  }

  /** Two detections with the same key deduplicate to the first. */
  lemma DedupSamePayloadTwice(normalize: seq<byte> -> string, d1: RawDetection, d2: RawDetection)
    requires normalize(d1.payload) == normalize(d2.payload)
    ensures Dedup(normalize, [d1, d2]) == [d1]
  {
    var dets := [d1, d2];
    assert dets[..1] == [d1];
    assert [d1][..0] == [];
    KeysSnoc(normalize, [], d1);
    assert [] + [d1] == [d1];
    assert Dedup(normalize, [d1]) == [d1];
  }

  /** A single survivor whose preview encodes gives a single record, index 0. */
  lemma SingleRecord(caps: Capabilities, img: Image, d: RawDetection)
    requires caps.encode(img, BoxIn(img, d)).Some?
    ensures Records(caps, img, [d]) == Some([MakeRecord(caps, img, d, 0).value])
    ensures MakeRecord(caps, img, d, 0).value.index == 0
  {
    RecordsFromOutcomes(caps, img, [d], [MakeRecord(caps, img, d, 0).value]);
  }

  /** An image with no codes is a successful empty answer, not an error. */
  lemma NoCodes(caps: Capabilities, filename: Option<string>, file: seq<byte>, img: Image)
    requires Extension(filename) != "pdf"
    requires caps.openImage(file) == Some(img)
    requires caps.decode(img) == Some([])
    ensures Detect(caps, filename, file) == Success(Response(false, 0, []))
  {
    NothingDecoded(caps, img);
  }

  /** A page on which the decoder finds one code whose preview encodes
      gives exactly one record, with index 0. */
  lemma OneCodePage(caps: Capabilities, img: Image, d: RawDetection)
    requires caps.decode(img) == Some([d]) && caps.encode(img, BoxIn(img, d)).Some?
    ensures ImageResults(caps, img).Some?
    ensures |ImageResults(caps, img).value| == 1 && ImageResults(caps, img).value[0].index == 0
  {
    assert [d][..0] == [];
    assert Dedup(caps.normalize, [d]) == [d];
    SingleRecord(caps, img, d);
  }

  /** Three successful page outcomes aggregate to their stamped concatenation. */
  lemma AggregateThree(results: seq<Option<seq<Record>>>)
    requires |results| == 3 && results[0].Some? && results[1].Some? && results[2].Some?
    ensures Aggregate(results) ==
      Some(Stamped(results[0].value, 1) + Stamped(results[1].value, 2) + Stamped(results[2].value, 3))
  {
    var s1, s2, s3 := Stamped(results[0].value, 1), Stamped(results[1].value, 2), Stamped(results[2].value, 3);
    assert results[..1][..0] == [];
    assert Aggregate(results[..1]) == Some([] + s1);
    assert [] + s1 == s1;
    assert results[..2][..1] == results[..1];
    assert Aggregate(results[..2]) == Some(s1 + s2);
    assert results[..3] == results;
  }

  /** A five-page document whose first three pages each hold one code
      answers three barcodes with pages 1, 2, 3, each with index 0; the last
      two pages are never processed, so even pages that would raise do not
      matter. */
  lemma FivePageDocument(caps: Capabilities, filename: Option<string>, file: seq<byte>,
                         pages: seq<Image>, d: seq<RawDetection>)
    requires Extension(filename) == "pdf"
    requires caps.rasterize(file) == Some(pages) && |pages| == 5 && |d| == 3
    requires forall k :: 0 <= k < 3 ==>
      caps.decode(pages[k]) == Some([d[k]]) && caps.encode(pages[k], BoxIn(pages[k], d[k])).Some?
    ensures Detect(caps, filename, file).Success?
    ensures var resp := Detect(caps, filename, file).body;
      && resp.count == 3
      && (forall k :: 0 <= k < 3 ==> resp.barcodes[k].page == Some(k + 1) && resp.barcodes[k].index == 0)
  {
    var scanned := ScannedPages(pages);
    assert scanned == pages[..3];
    var results := PageResults(caps, scanned);
    PageResultsSpec(caps, scanned);
    forall k | 0 <= k < 3
      ensures results[k].Some? && |results[k].value| == 1 && results[k].value[0].index == 0
    {
      assert results[k] == ImageResults(caps, pages[k]);
      OneCodePage(caps, pages[k], d[k]);
    }
    ThreeOneRecordPages(results);
    assert Detect(caps, filename, file) == Success(Assemble(Aggregate(results).value));
  }

  /** Three page outcomes of one record each, index 0, aggregate to three
      records, one per page, each with index 0. */
  lemma ThreeOneRecordPages(results: seq<Option<seq<Record>>>)
    requires |results| == 3
    requires forall k :: 0 <= k < 3 ==>
      results[k].Some? && |results[k].value| == 1 && results[k].value[0].index == 0
    ensures Aggregate(results).Some?
    ensures var all := Aggregate(results).value;
      |all| == 3 && forall k :: 0 <= k < 3 ==> all[k].page == Some(k + 1) && all[k].index == 0
  {
    OneRecordStamped(results[0], 1);
    OneRecordStamped(results[1], 2);
    OneRecordStamped(results[2], 3);
    AggregateThree(results);
    var s1 := Stamped(results[0].value, 1);
    var s2 := Stamped(results[1].value, 2);
    var s3 := Stamped(results[2].value, 3);
    assert s1 + s2 + s3 == [s1[0], s2[0], s3[0]];
  }

  /** A page outcome of one record with index 0, stamped, is one record
      with index 0 carrying that page number. */
  lemma OneRecordStamped(outcome: Option<seq<Record>>, page: nat)
    requires outcome.Some? && |outcome.value| == 1 && outcome.value[0].index == 0
    ensures var st := Stamped(outcome.value, page);
      |st| == 1 && st[0].page == Some(page) && st[0].index == 0
  {
  }

  /** A name without a '.' is taken whole, so "PDF" is a PDF. */
  lemma NameWithoutDot()
    ensures Extension(Some("PDF")) == "pdf"
  {
    AfterLastSpec("PDF", '.');
    assert AfterLast("PDF", '.') == "PDF";
    LowerIsPdf("PDF");
  }

  /** Only the part after the last '.' counts, in any case. */
  lemma LastDotCounts()
    ensures Extension(Some("scan.v2.Pdf")) == "pdf"
  {
    assert "scan.v2" + ['.'] + "Pdf" == "scan.v2.Pdf";
    AfterLastOfJoin("scan.v2", '.', "Pdf");
    LowerIsPdf("Pdf");
  }

  /** A ".pdf" before the last '.' does not make a PDF. */
  lemma EarlierPdfIgnored()
    ensures Extension(Some("pdf.png")) == "png"
  {
    assert "pdf" + ['.'] + "png" == "pdf.png";
    AfterLastOfJoin("pdf", '.', "png");
    var r := AsciiLower("png");
    assert r[0] == 'p' && r[1] == 'n' && r[2] == 'g';
    assert r == "png";
  }

  /** Without a filename, or with an empty one, the extension is "unknown",
      so the upload is processed as an image. */
  lemma NoFilename(caps: Capabilities, filename: Option<string>, file: seq<byte>)
    requires filename == None || filename == Some("")
    ensures Extension(filename) == "unknown"
    ensures caps.openImage(file).None? ==> Detect(caps, filename, file) == HttpError(400, ImageProcessing)
  {
  }

  /** An upload whose header opens but whose pixels fail to load or decode
      (a truncated file) is a 400 from the image branch. */
  lemma TruncatedImage(caps: Capabilities, filename: Option<string>, file: seq<byte>, img: Image)
    requires Extension(filename) != "pdf"
    requires caps.openImage(file) == Some(img)
    requires caps.decode(img) == None
    ensures Detect(caps, filename, file) == HttpError(400, ImageProcessing)
  {
  }
}
