/** Detection on one page image: decode, deduplicate, then build one
    record per survivor with its crop preview and region label. */
module ImageDetection {
  import opened BarcodeTypes
  import opened CropGeometry
  import opened RegionLabels
  import opened PayloadDedup

  /** The crop box of detection `d` in `img`. */
  function BoxIn(img: Image, d: RawDetection): CropBox
  {
    CropBoxOf(d.rect, img.width, img.height)
  }

  /** The record built for survivor number `idx`, or None when cropping or
      encoding its preview raises. The record keeps the original rectangle;
      the padded box only feeds the preview. */
  function MakeRecord(caps: Capabilities, img: Image, d: RawDetection, idx: nat): Option<Record>
  {
    match caps.encode(img, BoxIn(img, d))
    case None => None
    case Some(preview) =>
      Some(Record(idx, d.symbolType, caps.normalize(d.payload), d.rect,
                  Location(d.rect.x, d.rect.y, d.rect.width, d.rect.height, img.width, img.height),
                  preview, None))
  }

  /** The outcome of building the record of each survivor, numbered from 0. */
  function RecordOutcomes(caps: Capabilities, img: Image, unique: seq<RawDetection>): seq<Option<Record>>
  {
    seq(|unique|, i requires 0 <= i < |unique| => MakeRecord(caps, img, unique[i], i))
  }

  /** The records built for `unique`, in order; None when any survivor's
      preview fails, as the first failing record aborts the loop. */
  function Records(caps: Capabilities, img: Image, unique: seq<RawDetection>): Option<seq<Record>>
  {
    var outcomes := RecordOutcomes(caps, img, unique);
    if forall i :: 0 <= i < |outcomes| ==> outcomes[i].Some? then
      Some(seq(|outcomes|, i requires 0 <= i < |outcomes| => outcomes[i].value))
    else None
  }

  /** The result of processing one page image; None when loading the
      pixels or decoding raises, or when a survivor's preview fails. */
  function ImageResults(caps: Capabilities, img: Image): Option<seq<Record>>
  {
    match caps.decode(img)
    case None => None
    case Some(dets) => Records(caps, img, Dedup(caps.normalize, dets))
  }

  /** Records succeed exactly when every survivor's preview encodes, and
      then record `i` carries index `i`, the type, normalised payload and
      original rectangle of survivor `i`, its region label and its preview,
      and no page number yet. */
  lemma RecordsSpec(caps: Capabilities, img: Image, unique: seq<RawDetection>)
    ensures Records(caps, img, unique).Some? <==>
      forall i :: 0 <= i < |unique| ==> caps.encode(img, BoxIn(img, unique[i])).Some?
    ensures Records(caps, img, unique).Some? ==>
      var rs := Records(caps, img, unique).value;
      && |rs| == |unique|
      && forall i :: 0 <= i < |unique| ==>
        && rs[i].index == i
        && rs[i].symbolType == unique[i].symbolType
        && rs[i].data == caps.normalize(unique[i].payload)
        && rs[i].rect == unique[i].rect
        && rs[i].location == Location(unique[i].rect.x, unique[i].rect.y, unique[i].rect.width,
                                      unique[i].rect.height, img.width, img.height)
        && rs[i].imageBase64 == caps.encode(img, BoxIn(img, unique[i])).value
        && rs[i].page == None
  {
    var outcomes := RecordOutcomes(caps, img, unique);
    assert |outcomes| == |unique|;
    assert forall i :: 0 <= i < |unique| ==> outcomes[i] == MakeRecord(caps, img, unique[i], i);
  }

  /** Records that match the survivors' outcomes one by one are the result. */
  lemma RecordsFromOutcomes(caps: Capabilities, img: Image, unique: seq<RawDetection>, rs: seq<Record>)
    requires |rs| == |unique|
    requires forall i :: 0 <= i < |unique| ==> MakeRecord(caps, img, unique[i], i) == Some(rs[i])
    ensures Records(caps, img, unique) == Some(rs)
  {
    var outcomes := RecordOutcomes(caps, img, unique);
    assert rs == seq(|outcomes|, i requires 0 <= i < |outcomes| => outcomes[i].value);
  }

  /** Within one image no two records share `data`, and the indices run
      0..n-1 in list order. */
  lemma ImageResultsDistinctAndDense(caps: Capabilities, img: Image)
    requires ImageResults(caps, img).Some?
    ensures var rs := ImageResults(caps, img).value;
      && (forall a, b :: 0 <= a < b < |rs| ==> rs[a].data != rs[b].data)
      && (forall k :: 0 <= k < |rs| ==> rs[k].index == k)
  {
    var dets := caps.decode(img).value;
    var unique := Dedup(caps.normalize, dets);
    RecordsSpec(caps, img, unique);
    DedupDistinct(caps.normalize, dets);
    var rs := ImageResults(caps, img).value;
    forall a, b | 0 <= a < b < |rs| ensures rs[a].data != rs[b].data {
      assert rs[a].data == caps.normalize(unique[a].payload);
      assert rs[b].data == caps.normalize(unique[b].payload);
    }
  }

  /** Every normalised payload the decoder reported on the image is the
      `data` of some record, and no other string is. */
  lemma ImageResultsCoverPayloads(caps: Capabilities, img: Image)
    requires ImageResults(caps, img).Some?
    ensures var rs := ImageResults(caps, img).value;
      (set k | 0 <= k < |rs| :: rs[k].data) == Keys(caps.normalize, caps.decode(img).value)
  {
    var dets := caps.decode(img).value;
    var unique := Dedup(caps.normalize, dets);
    RecordsSpec(caps, img, unique);
    DedupKeys(caps.normalize, dets);
    var rs := ImageResults(caps, img).value;
    assert forall k :: 0 <= k < |rs| ==> rs[k].data == caps.normalize(unique[k].payload);
    forall t | t in Keys(caps.normalize, unique) ensures t in (set k | 0 <= k < |rs| :: rs[k].data) {
      var k :| 0 <= k < |unique| && t == caps.normalize(unique[k].payload);
      assert rs[k].data == t;
    }
  }

  /** Record `k` is built from the first detection of its payload in
      decoder order, at position `FirstIndices(...)[k]`, so the records
      follow the decoder's order. */
  lemma ImageResultsFirstOccurrences(caps: Capabilities, img: Image)
    requires ImageResults(caps, img).Some?
    ensures var rs, dets := ImageResults(caps, img).value, caps.decode(img).value;
      var ix := FirstIndices(caps.normalize, dets);
      && |rs| == |ix|
      && forall k :: 0 <= k < |rs| ==>
        && ix[k] < |dets| && IsFirst(caps.normalize, dets, ix[k])
        && rs[k].data == caps.normalize(dets[ix[k]].payload)
        && rs[k].symbolType == dets[ix[k]].symbolType
        && rs[k].rect == dets[ix[k]].rect
  {
    var dets := caps.decode(img).value;
    var unique := Dedup(caps.normalize, dets);
    RecordsSpec(caps, img, unique);
    DedupSelectsFirst(caps.normalize, dets);
    FirstIndicesSpec(caps.normalize, dets);
    var ix := FirstIndices(caps.normalize, dets);
    assert forall k :: 0 <= k < |ix| ==> ix[k] in ix;
  }

  /** An image in which the decoder finds nothing gives no records. */
  lemma NothingDecoded(caps: Capabilities, img: Image)
    requires caps.decode(img) == Some([])
    ensures ImageResults(caps, img) == Some([])
  {
    RecordsFromOutcomes(caps, img, [], []);
  }

  /** The second loop: one record per survivor, numbered from 0; a preview
      that fails to encode aborts the image. */
  method BuildRecords(caps: Capabilities, img: Image, unique: seq<RawDetection>)
    returns (results: Option<seq<Record>>)
    ensures results == Records(caps, img, unique)
  {
    ghost var outcomes := RecordOutcomes(caps, img, unique);
    var built: seq<Record> := [];
    for idx := 0 to |unique|
      invariant |built| == idx
      invariant forall j :: 0 <= j < idx ==> outcomes[j] == Some(built[j])
    {
      var barcode := unique[idx];
      var r := barcode.rect;
      var box := CropBoxOf(r, img.width, img.height);
      var preview := caps.encode(img, box);
      if preview.None? {
        assert outcomes[idx].None?;
        return None;
      }
      var data := caps.normalize(barcode.payload);
      var location := Location(r.x, r.y, r.width, r.height, img.width, img.height);
      built := built + [Record(idx, barcode.symbolType, data, r, location, preview.value, None)];
    }
    RecordsFromOutcomes(caps, img, unique, built);
    return Some(built);
  }

  /** The per-image pipeline: decode, deduplicate, build the records. A
      decoder that raises aborts the image. */
  method DetectBarcodesInImage(caps: Capabilities, img: Image) returns (results: Option<seq<Record>>)
    ensures results == ImageResults(caps, img)
  {
    var barcodes := caps.decode(img);
    if barcodes.None? {
      return None;
    }
    var unique := DedupDetections(caps.normalize, barcodes.value);
    results := BuildRecords(caps, img, unique);
  }
}
