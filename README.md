# Barcode detection service — a Dafny model

This project models the post-processing core of the barcode detection
service in `main.py`. The foreign decoder produces a list of raw
detections, and the core turns that list into the JSON reply of
`POST /detect`:

- **Per-image pipeline** (`detect_barcodes_in_image`). Detections are
  deduplicated by normalised payload, with a fresh seen-set for each image.
  Each survivor is numbered from 0. Each gets a padded crop box, clipped to
  the image, for its preview, and a 3×3 region label. One record is
  assembled per survivor. A preview that raises aborts the image.
- **Region classifier** (`get_barcode_location`). It picks one of the nine
  `"{vertical}-{horizontal}"` labels from the centre of the rectangle.
- **Request handler** (`detect_barcodes`). It lowercases the text after the
  last `.` of the filename and dispatches on it:
  - A PDF is rasterized. Its pages go through the per-image pipeline in
    order. Each page's records are stamped with the 1-based page number and
    appended. The loop stops after the third page.
  - Anything else is opened as one image, and its records are stamped
    page 1.
  - A failure inside either branch answers status 400 with no partial
    results. Otherwise the reply is `{detected, count, barcodes}`.

Modules follow the program's structure:

| file | module | models |
|---|---|---|
| `types.dfy` | `BarcodeTypes` | detections, images, crop boxes, records, and the foreign capabilities passed in as total functions |
| `dedup.dfy` | `PayloadDedup` | the dedup loop and its specification |
| `geometry.dfy` | `CropGeometry` | padding and the crop box |
| `location.dfy` | `RegionLabels` | the 3×3 classifier, in integer arithmetic |
| `text.dfy` | `Text` | splitting at the last `.` and ASCII lowercasing |
| `image_detection.dfy` | `ImageDetection` | the record loop and the per-image pipeline |
| `request.dfy` | `DetectRequest` | extension dispatch, page loop, stamping, response and errors |
| `scenarios.dfy` | `DetectScenarios` | whole-request consequences for concrete situations |

**How it is structured.** Each loop of the source is a method with loop
invariants. Its `ensures` ties the result to a specification function:
- `DedupDetections` ↔ `Dedup`
- `BuildRecords` ↔ `Records`
- `StampPage` ↔ `Stamped`
- `ScanPdfPages` ↔ `PdfBarcodes` ↔ `Aggregate`
- `DetectBarcodes` ↔ `Detect`

The properties the service promises are then proved as lemmas about those
functions.

**The foreign code is passed in as values of `Capabilities`.** These are
the decoder (with the pixel load and grayscale conversion before it),
payload normalisation, the crop/PNG/base64 encoder, the PDF rasterizer and
the image opener. The decoder, the encoder, the rasterizer and the image
opener return an `Option`, with `None` standing for a raise; normalisation
is total, as its own fallback catches every decoding error.

**Ties on a third-line.** A centre exactly on a third-line goes to the
higher region, because the comparisons are strict `<`: a centre at exactly
x = W/3 gives "center". See `RegionLabels.Third`.

## Model

| member | source | states |
|---|---|---|
| `PayloadDedup.DedupDetections` | main.py:33-48 | the dedup loop, with a fresh seen-set and one pass over the decoder output, returns exactly `Dedup` of that output; the invariant is that the seen-set is the set of keys of the prefix scanned so far |
| `PayloadDedup.Dedup` | main.py:33-48 | the specification of the dedup loop: a detection is kept exactly when no earlier one has its normalised payload, in decoder order; what it keeps is stated by `DedupSelectsFirst`, `DedupKeys`, `DedupDistinct`, `DedupOfDistinct` and `DedupIdempotent` below |
| `PayloadDedup.FirstIndicesSpec` | main.py:37-48 | the positions of the first detection of each key are in range and strictly ascending, and a position is listed exactly when no earlier detection has its key (both directions) |
| `PayloadDedup.DedupSelectsFirst` | main.py:37-48 | survivor k is the detection at the k-th first-occurrence position: the first of each key survives, and survivors keep decoder order |
| `PayloadDedup.DedupKeys` | main.py:43-48 | the set of survivors' keys equals the set of keys in the decoder output: no payload is lost, none is invented |
| `PayloadDedup.DedupDistinct` | main.py:43-48 | no two survivors share a normalised payload |
| `PayloadDedup.DedupOfDistinct` | main.py:33-48 | output whose keys are already distinct passes through unchanged |
| `PayloadDedup.DedupIdempotent` | main.py:33-48 | deduplicating a second time changes nothing |
| `CropGeometry.Padding` | main.py:56 | the padding p is the largest value such that 10·p is at most both sides, i.e. a tenth of the shorter side rounded down |
| `CropGeometry.CropBoxOf` | main.py:55-68 | the padded crop box passed to `crop`: left/upper are x/y minus the padding clipped at 0, right/lower add the padded size clipped to the image; its bounds are stated by `CropBoxBounds`, `CropInsideImage` and `CropAwayFromEdges` below |
| `CropGeometry.CropBoxBounds` | main.py:55-68 | left is x − p clipped at 0 (so 0 ≤ left ≤ x), and likewise upper; right is the smaller of the image width and left + w + 2p, and likewise lower; the box never passes the image's right or lower edge, and it reaches past the detection when the detection fits in the image |
| `CropGeometry.CropInsideImage` | main.py:57-68 | for a detection inside the image, the crop box lies inside the image and contains the detection |
| `CropGeometry.CropAwayFromEdges` | main.py:55-68 | away from the image edges, the box is the detection grown by exactly the padding on all four sides |
| `RegionLabels.Third` | main.py:104-126 | the third picked is 0, 1 or 2; a centre exactly on the first third-line gives 1, and one exactly on the second gives 2 (ties go to the higher region) |
| `RegionLabels.ThirdMatchesExact` | main.py:104-126 | the integer comparisons pick the same third as comparing the centre x + w/2 with W/3 and 2·(W/3) in exact rationals |
| `RegionLabels.Location` | main.py:102-128 | the region label, the vertical third's name, a dash and the horizontal third's name; that it is one of the nine labels and splits into independent parts is stated by `LocationInLabels` and `LocationParts` below, the tie-breaking by `Third` |
| `RegionLabels.LocationInLabels` | main.py:102-128 | the classifier always returns one of the nine labels top/middle/bottom-left/center/right |
| `RegionLabels.LocationParts` | main.py:112-128 | the label splits at its dash into a vertical part fixed by (y, h, height) alone and a horizontal part fixed by (x, w, width) alone |
| `ImageDetection.MakeRecord` | main.py:53-98 | one survivor's record, None when its preview raises; its fields are stated by `RecordsSpec` below |
| `ImageDetection.Records` | main.py:50-100 | the specification of the record loop: all records in survivor order, None when any preview fails; stated by `RecordsSpec` and `RecordsFromOutcomes` below |
| `ImageDetection.ImageResults` | main.py:25-100 | one image's outcome: None when loading the pixels or decoding raises, otherwise the records of the deduplicated decoder output; its properties are stated by `ImageResultsDistinctAndDense`, `ImageResultsCoverPayloads`, `ImageResultsFirstOccurrences` and `NothingDecoded` below |
| `ImageDetection.RecordsSpec` | main.py:50-98 | building records succeeds exactly when every survivor's preview encodes; then record i has index i, the survivor's type, its normalised payload as `data`, its original unpadded rectangle, its region label, the preview of its padded crop box as `image_base64`, and no page yet |
| `ImageDetection.BuildRecords` | main.py:50-100 | the record loop returns exactly `Records` of the survivors, None as soon as one preview fails |
| `ImageDetection.DetectBarcodesInImage` | main.py:25-100 | the per-image pipeline returns exactly `ImageResults`: None when loading the pixels or decoding raises, otherwise the records of the deduplicated decoder output |
| `ImageDetection.ImageResultsDistinctAndDense` | main.py:50-51 | within one image's results no two records share `data`, and indices are exactly 0..n−1 in list order |
| `ImageDetection.ImageResultsCoverPayloads` | main.py:85-88 | the set of `data` values of one image's results is exactly the set of normalised payloads the decoder reported |
| `ImageDetection.ImageResultsFirstOccurrences` | main.py:34-51 | record k comes from the first detection of its payload, at the k-th first-occurrence position, with that detection's type and rectangle, so records follow decoder order |
| `ImageDetection.NothingDecoded` | main.py:50-100 | empty decoder output gives an empty, successful result list |
| `Text.AfterLastSpec` | main.py:138 | the piece after the last separator contains no separator, is a suffix of the name, and is preceded by a separator when it is not the whole name |
| `Text.AsciiLower` | main.py:138 | lowercasing keeps the length and lowercases character by character |
| `Text.LowerIsPdf` | main.py:138-142 | a piece lowercases to "pdf" exactly when it is p/P, d/D, f/F |
| `DetectRequest.Extension` | main.py:138 | the lowercased text after the last '.', or "unknown" without a filename or with an empty one; stated by `PdfBranchCondition` below and the scenarios `NameWithoutDot`, `LastDotCounts`, `EarlierPdfIgnored` and `NoFilename` |
| `DetectRequest.PdfBranchCondition` | main.py:138-142 | the PDF branch is taken exactly when the filename is non-empty and its text after the last '.' (all of it if there is no '.') spells pdf in any case |
| `DetectRequest.Stamped` | main.py:151-152 | stamping keeps the length, and record i becomes record i with page set to the page number |
| `DetectRequest.ScannedPages` | main.py:147-157 | the scanned pages are the document's first min(n, 3) pages |
| `DetectRequest.PageResultsSpec` | main.py:147-148 | the k-th page outcome is the per-image pipeline's result on page k+1 |
| `DetectRequest.Aggregate` | main.py:147-160 | the specification of the page loop over the page outcomes: each page's records stamped with its 1-based number and concatenated, None when any page raised; stated by `AggregateSucceedIff`, `AggregatePageOrder`, `AggregatePerPage` and `PageStep` below |
| `DetectRequest.AggregateSucceedIff` | main.py:147-160 | the page loop succeeds exactly when every scanned page succeeds |
| `DetectRequest.AggregatePageOrder` | main.py:147-152 | every record of a successful loop has a page in 1..n, and page numbers never decrease along the list |
| `DetectRequest.AggregatePerPage` | main.py:147-153 | the records with page k+1 are exactly page k+1's results, in order, stamped k+1, so equal payloads on different pages are all kept; together with `AggregatePageOrder` this makes the list the pages' results concatenated in page order |
| `DetectRequest.PageStep` | main.py:147-157 | one step of the page loop: a page that raises aborts the whole scan; a successful page extends what the earlier pages gave by its stamped records, and after the third page that is the final answer |
| `DetectRequest.PdfPagesIndexedFromZero` | main.py:147-153 | on each PDF page, the indices restart at 0 and run 0..n−1, and `data` values are distinct |
| `DetectRequest.PagesBeyondCapIgnored` | main.py:155-157 | pages after the third never influence the result |
| `DetectRequest.Assemble` | main.py:175-186 | the body's list is the collected records, `count` is its length, and `detected` holds exactly when `count > 0` |
| `DetectRequest.Detect` | main.py:136-186 | the reply to one upload: the PDF branch on extension "pdf", the image branch otherwise, 400 from the branch that raised, else the assembled body; stated by `ReplyShape`, `PdfRequest` and `ImageRequest` below |
| `DetectRequest.ReplyShape` | main.py:158-186 | every reply is either a body with count equal to the length of the list, detected = (count > 0) and `{false, 0, []}` when empty, or an error with status 400 |
| `DetectRequest.PdfRequest` | main.py:142-160 | a PDF request answers 400 when rasterizing fails or any of the first three pages fails; otherwise every page is in 1..n for the n ≤ 3 scanned pages, pages never decrease, and the records of page k+1 are that page's results stamped k+1 |
| `DetectRequest.ImageRequest` | main.py:162-173 | an image request answers 400 when the upload does not open or processing fails; otherwise the barcodes are the image's results in order, all stamped page 1, with indices 0..n−1 and distinct `data` |
| `DetectRequest.StampPage` | main.py:151-152 | the stamping loop returns exactly `Stamped` of the page's records |
| `DetectRequest.ScanPage` | main.py:148-152 | one page through the per-image pipeline, then stamped: the page's stamped outcome, or None when it raised |
| `DetectRequest.ScanPdfPages` | main.py:147-160 | the page loop over the rasterized pages returns exactly `PdfBarcodes` of the first three pages |
| `DetectRequest.DetectBarcodes` | main.py:136-186 | the handler returns exactly `Detect`: the reply of the dispatch, loop and assembly above |
| `DetectScenarios.SameCodeTwice` | main.py:33-48 | an image whose decoder reports the same payload twice answers one barcode: index 0, page 1, with the first detection's payload and rectangle |
| `DetectScenarios.DedupSamePayloadTwice` | main.py:43-48 | two detections with the same key deduplicate to the first |
| `DetectScenarios.NoCodes` | main.py:175-180 | an image with no codes answers `{false, 0, []}`, not an error |
| `DetectScenarios.OneCodePage` | main.py:50-98 | a page with one code whose preview encodes gives one record, index 0 |
| `DetectScenarios.FivePageDocument` | main.py:147-157 | a five-page PDF whose first three pages hold one code each answers three barcodes with pages 1, 2, 3, each with index 0, whatever pages 4 and 5 hold |
| `DetectScenarios.NameWithoutDot` | main.py:138 | a file named "PDF" takes the PDF branch |
| `DetectScenarios.LastDotCounts` | main.py:138 | "scan.v2.Pdf" takes the PDF branch |
| `DetectScenarios.EarlierPdfIgnored` | main.py:138 | "pdf.png" has extension "png" |
| `DetectScenarios.TruncatedImage` | main.py:28-31 | an upload that opens but whose pixels fail to load or decode answers 400 from the image branch (main.py:164-173) |
| `DetectScenarios.NoFilename` | main.py:138 | an upload without a filename, or with an empty one, has extension "unknown" and is processed as an image |

## Left out

- The pixel load, the grayscale conversion and the decoder (main.py:28-31). They are the `decode` capability: an arbitrary function from page to detections, `None` when any of them raises. `Image.open` (main.py:165) reads only the header, so a truncated upload can open and then fail here; the model lets `openImage` succeed and `decode` fail for such an upload.
- Payload normalisation, i.e. UTF-8 decoding or Python's `str(bytes)` (main.py:38-41, 76-79). It is the `normalize` capability. It is not assumed injective. The same function gives the dedup key and the `data` field.
- Cropping, PNG encoding and base64 (main.py:63-73). These are the `encode` capability, applied to the image and the crop box. Only the box is modelled; `None` stands for a raise.
- The PDF rasterizer (main.py:145) and the image opener (main.py:165). These are the `rasterize` and `openImage` capabilities. A page is its size plus an opaque raster.
- The `quality` field (main.py:97). It passes the decoder's value through unchanged, with no logic.
- FastAPI routing, CORS, the async read of the upload, the `/health` endpoint and uvicorn startup (main.py:14-23, 130-137, 193-202). These are HTTP plumbing.
- The status-500 catch-all (main.py:188-191). No modelled step fails outside the two branches, so nothing maps to 500.
- The text of the error detail. An error carries its status and the branch that raised, not the exception message.
- Unicode lowercasing (main.py:138). `.lower()` is modelled as ASCII lowercasing, so non-ASCII letters in an extension are left alone.
- IEEE floating point in the classifier (main.py:105-110). The model uses exact arithmetic, which `RegionLabels.ThirdMatchesExact` ties to the integer tests:
  - The centre is a multiple of ½ and a third-line is a multiple of ⅓. They are therefore equal or at least 1/6 apart.
  - Rounding W/3 to a double errs by far less than 1/6 for any realistic image size, so the float comparisons agree with the exact ones.
  - This argument is not itself proved.
- IEEE floating point in the padding (main.py:56). The model takes `int(min(w, h) * 0.1)` to be `min(w, h) / 10` for the non-negative sizes the decoder returns. The float product errs by far less than the gap to the next integer for realistic sizes. This is not proved.
- In-place mutation of the result dictionaries (`barcode['page'] = …`, main.py:151, 170). It is modelled as building stamped copies. The source's lists are not aliased elsewhere, so the values agree, but aliasing is not modelled.
- The page cap's `break` (main.py:155-157). It is a `return` of the collected records in `ScanPdfPages`, because nothing but handing them back follows the loop.
