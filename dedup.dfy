/** Per-image deduplication of decoder output by normalised payload. */
module PayloadDedup {
  import opened BarcodeTypes

  /** The normalised payloads (dedup keys) of the detections in `s`. */
  function Keys(normalize: seq<byte> -> string, s: seq<RawDetection>): set<string>
  {
    set i | 0 <= i < |s| :: normalize(s[i].payload)
  }

  /** No two detections of `s` share a dedup key. */
  predicate DistinctKeys(normalize: seq<byte> -> string, s: seq<RawDetection>)
  {
    forall a, b :: 0 <= a < b < |s| ==> normalize(s[a].payload) != normalize(s[b].payload)
  }

  /** Detection `i` of `s` is the first one with its key. */
  predicate IsFirst(normalize: seq<byte> -> string, s: seq<RawDetection>, i: nat)
    requires i < |s|
  {
    forall j :: 0 <= j < i ==> normalize(s[j].payload) != normalize(s[i].payload)
  }

  /** The detections kept by the dedup loop over `s`, in decoder order:
      each one whose key no earlier detection of `s` has. */
  function Dedup(normalize: seq<byte> -> string, s: seq<RawDetection>): seq<RawDetection>
    decreases |s|
  {
    if s == [] then []
    else Dedup(normalize, s[..|s| - 1]) + (if IsFirst(normalize, s, |s| - 1) then [s[|s| - 1]] else [])
  }

  /** The positions in `s` of the first detection of each key, ascending. */
  function FirstIndices(normalize: seq<byte> -> string, s: seq<RawDetection>): seq<nat>
    decreases |s|
  {
    if s == [] then []
    else FirstIndices(normalize, s[..|s| - 1]) + (if IsFirst(normalize, s, |s| - 1) then [|s| - 1] else [])
  }

  lemma KeysSnoc(normalize: seq<byte> -> string, s: seq<RawDetection>, d: RawDetection)
    ensures Keys(normalize, s + [d]) == Keys(normalize, s) + {normalize(d.payload)}
  {
    var t := s + [d];
    forall k | k in Keys(normalize, t) ensures k in Keys(normalize, s) + {normalize(d.payload)} {
      var i :| 0 <= i < |t| && k == normalize(t[i].payload);
      if i < |s| { assert t[i] == s[i]; }
    }
    forall k | k in Keys(normalize, s) ensures k in Keys(normalize, t) {
      var i :| 0 <= i < |s| && k == normalize(s[i].payload);
      assert t[i] == s[i];
    }
    assert normalize(d.payload) == normalize(t[|s|].payload);
  }

  /** The last detection is seen before exactly when it is not the first of its key. */
  lemma LastSeenIffNotFirst(normalize: seq<byte> -> string, s: seq<RawDetection>)
    requires s != []
    ensures normalize(s[|s| - 1].payload) in Keys(normalize, s[..|s| - 1]) <==> !IsFirst(normalize, s, |s| - 1)
  {
    var init := s[..|s| - 1];
    var key := normalize(s[|s| - 1].payload);
    if key in Keys(normalize, init) {
      var j :| 0 <= j < |init| && key == normalize(init[j].payload);
      assert init[j] == s[j];
    }
    if !IsFirst(normalize, s, |s| - 1) {
      var j :| 0 <= j < |s| - 1 && normalize(s[j].payload) == key;
      assert init[j] == s[j];
    }
  }

  /** The first-occurrence positions are in range, strictly ascending, and
      name exactly the detections that are the first of their key. */
  lemma {:induction false} FirstIndicesSpec(normalize: seq<byte> -> string, s: seq<RawDetection>)
    ensures var ix := FirstIndices(normalize, s);
      && (forall k :: 0 <= k < |ix| ==> ix[k] < |s|)
      && (forall k, l :: 0 <= k < l < |ix| ==> ix[k] < ix[l])
      && (forall i :: 0 <= i < |s| ==> (i in ix <==> IsFirst(normalize, s, i)))
    decreases |s|
  {
    if s != [] {
      var init := s[..|s| - 1];
      FirstIndicesSpec(normalize, init);
      forall i | 0 <= i < |s| - 1 ensures IsFirst(normalize, s, i) == IsFirst(normalize, init, i) {
        assert forall j :: 0 <= j <= i ==> init[j] == s[j];
      }
    }
  }

  /** Dedup keeps exactly the first detection of each key, in decoder
      order: its k-th survivor is detection `FirstIndices(s)[k]`. */
  lemma {:induction false} DedupSelectsFirst(normalize: seq<byte> -> string, s: seq<RawDetection>)
    ensures var r, ix := Dedup(normalize, s), FirstIndices(normalize, s);
      && |r| == |ix|
      && (forall k :: 0 <= k < |r| ==> ix[k] < |s| && r[k] == s[ix[k]])
    decreases |s|
  {
    if s != [] {
      var init := s[..|s| - 1];
      DedupSelectsFirst(normalize, init);
      LastSeenIffNotFirst(normalize, s);
      var r0, ix0 := Dedup(normalize, init), FirstIndices(normalize, init);
      assert forall k :: 0 <= k < |r0| ==> ix0[k] < |init| && r0[k] == init[ix0[k]] == s[ix0[k]];
      if !IsFirst(normalize, s, |s| - 1) {
        assert Dedup(normalize, s) == r0 && FirstIndices(normalize, s) == ix0;
      } else {
        var r, ix := r0 + [s[|s| - 1]], ix0 + [|s| - 1];
        assert Dedup(normalize, s) == r && FirstIndices(normalize, s) == ix;
        forall k | 0 <= k < |r| ensures ix[k] < |s| && r[k] == s[ix[k]] {
          if k < |r0| {
            assert r[k] == r0[k] && ix[k] == ix0[k];
          }
        }
      }
    }
  }

  /** Every key of the decoder output survives, and no other. */
  lemma {:induction false} DedupKeys(normalize: seq<byte> -> string, s: seq<RawDetection>)
    ensures Keys(normalize, Dedup(normalize, s)) == Keys(normalize, s)
    decreases |s|
  {
    if s != [] {
      var init := s[..|s| - 1];
      var last := s[|s| - 1];
      DedupKeys(normalize, init);
      LastSeenIffNotFirst(normalize, s);
      assert s == init + [last];
      KeysSnoc(normalize, init, last);
      if IsFirst(normalize, s, |s| - 1) {
        assert Dedup(normalize, s) == Dedup(normalize, init) + [last];
        KeysSnoc(normalize, Dedup(normalize, init), last);
      } else {
        assert Dedup(normalize, s) == Dedup(normalize, init);
      }
    }
  }

  /** No two survivors share a key. */
  lemma {:induction false} DedupDistinct(normalize: seq<byte> -> string, s: seq<RawDetection>)
    ensures DistinctKeys(normalize, Dedup(normalize, s))
    decreases |s|
  {
    if s != [] {
      var init := s[..|s| - 1];
      var last := s[|s| - 1];
      DedupDistinct(normalize, init);
      if normalize(last.payload) !in Keys(normalize, init) {
        var r0 := Dedup(normalize, init);
        DedupKeys(normalize, init);
        var r := r0 + [last];
        forall a, b | 0 <= a < b < |r| ensures normalize(r[a].payload) != normalize(r[b].payload) {
          if b == |r0| {
            assert normalize(r0[a].payload) in Keys(normalize, r0);
          } else {
            assert r[a] == r0[a] && r[b] == r0[b];
          }
        }
      }
    }
  }

  /** Output that already has distinct keys passes through unchanged. */
  lemma {:induction false} DedupOfDistinct(normalize: seq<byte> -> string, s: seq<RawDetection>)
    requires DistinctKeys(normalize, s)
    ensures Dedup(normalize, s) == s
    decreases |s|
  {
    if s != [] {
      var init := s[..|s| - 1];
      assert DistinctKeys(normalize, init) by {
        forall a, b | 0 <= a < b < |init| ensures normalize(init[a].payload) != normalize(init[b].payload) {
          assert init[a] == s[a] && init[b] == s[b];
        }
      }
      DedupOfDistinct(normalize, init);
      assert init + [s[|s| - 1]] == s;
    }
  }

  /** Deduplicating twice is the same as deduplicating once. */
  lemma DedupIdempotent(normalize: seq<byte> -> string, s: seq<RawDetection>)
    ensures Dedup(normalize, Dedup(normalize, s)) == Dedup(normalize, s)
  {
    DedupDistinct(normalize, s);
    DedupOfDistinct(normalize, Dedup(normalize, s));
  }

  /** The dedup loop: a fresh seen-set, and each detection kept unless its
      normalised payload is already in the set. */
  method DedupDetections(normalize: seq<byte> -> string, detections: seq<RawDetection>)
    returns (unique: seq<RawDetection>)
    ensures unique == Dedup(normalize, detections)
  {
    var seen: set<string> := {};
    unique := [];
    for i := 0 to |detections|
      invariant seen == Keys(normalize, detections[..i])
      invariant unique == Dedup(normalize, detections[..i])
    {
      var barcode := detections[i];
      var data := normalize(barcode.payload);
      assert detections[..i + 1] == detections[..i] + [barcode];
      KeysSnoc(normalize, detections[..i], barcode);
      if data in seen {
        continue;
      }
      seen := seen + {data};
      unique := unique + [barcode];
    }
    assert detections[..|detections|] == detections;
  }
}
