/** The 3x3 page-region label of a detection, from the centre of its rectangle. */
module RegionLabels {
  import opened Text

  const HorizontalNames: seq<string> := ["left", "center", "right"]
  const VerticalNames: seq<string> := ["top", "middle", "bottom"]

  /** The nine labels the classifier can return. */
  const Labels: set<string> := {
    "top-left", "top-center", "top-right",
    "middle-left", "middle-center", "middle-right",
    "bottom-left", "bottom-center", "bottom-right"
  }

  /** The third (0, 1 or 2) of a span of `extent` pixels that holds the
      centre `start + size / 2`: the source compares the centre with
      `extent / 3` and `2 * (extent / 3)` by strict `<`, which in integers is
      comparing `3 * (2 * start + size)` with `2 * extent` and `4 * extent`.
      A centre exactly on a third-line belongs to the higher third. */
  function Third(start: int, size: int, extent: int): (k: nat)
    ensures k < 3
    ensures 0 < extent && 3 * (2 * start + size) == 2 * extent ==> k == 1
    ensures 0 <= extent && 3 * (2 * start + size) == 4 * extent ==> k == 2
  {
    if 3 * (2 * start + size) < 2 * extent then 0
    else if 3 * (2 * start + size) < 4 * extent then 1
    else 2
  }

  /** The same choice read over exact rationals, as the source writes it:
      the centre against one and two thirds of the extent. */
  function ExactThird(start: int, size: int, extent: int): nat
  {
    var center := start as real + size as real / 2.0;
    var third := extent as real / 3.0;
    if center < third then 0
    else if center < 2.0 * third then 1
    else 2
  }

  /** The integer comparisons agree with the exact-arithmetic reading of
      the source's floating-point comparisons; how floats may differ is
      under "Left out" in README.md. */
  lemma ThirdMatchesExact(start: int, size: int, extent: int)
    ensures Third(start, size, extent) == ExactThird(start, size, extent)
  {
    var center := start as real + size as real / 2.0;
    var third := extent as real / 3.0;
    assert 6.0 * center == (3 * (2 * start + size)) as real;
    assert 6.0 * third == (2 * extent) as real;
  }

  /** Joining a vertical and a horizontal name with a dash gives one of the nine labels. */
  lemma NamesJoinToLabel(v: nat, hz: nat)
    requires v < 3 && hz < 3
    ensures VerticalNames[v] + "-" + HorizontalNames[hz] in Labels
  {
    if v == 0 && hz == 0 {
      assert VerticalNames[v] + "-" + HorizontalNames[hz] == "top-left";
    } else if v == 0 && hz == 1 {
      assert VerticalNames[v] + "-" + HorizontalNames[hz] == "top-center";
    } else if v == 0 && hz == 2 {
      assert VerticalNames[v] + "-" + HorizontalNames[hz] == "top-right";
    } else if v == 1 && hz == 0 {
      assert VerticalNames[v] + "-" + HorizontalNames[hz] == "middle-left";
    } else if v == 1 && hz == 1 {
      assert VerticalNames[v] + "-" + HorizontalNames[hz] == "middle-center";
    } else if v == 1 && hz == 2 {
      assert VerticalNames[v] + "-" + HorizontalNames[hz] == "middle-right";
    } else if v == 2 && hz == 0 {
      assert VerticalNames[v] + "-" + HorizontalNames[hz] == "bottom-left";
    } else if v == 2 && hz == 1 {
      assert VerticalNames[v] + "-" + HorizontalNames[hz] == "bottom-center";
    } else {
      assert VerticalNames[v] + "-" + HorizontalNames[hz] == "bottom-right";
    }
  }

  /** The label of a rectangle `(x, y, w, h)` in an image of
      `imgWidth` by `imgHeight`: "{vertical}-{horizontal}". */
  function Location(x: int, y: int, w: int, h: int, imgWidth: int, imgHeight: int): string
  {
    VerticalNames[Third(y, h, imgHeight)] + "-" + HorizontalNames[Third(x, w, imgWidth)]
  }

  /** Every rectangle gets one of the nine labels. */
  lemma LocationInLabels(x: int, y: int, w: int, h: int, imgWidth: int, imgHeight: int)
    ensures Location(x, y, w, h, imgWidth, imgHeight) in Labels
  {
    NamesJoinToLabel(Third(y, h, imgHeight), Third(x, w, imgWidth));
  }

  /** The label splits at its dash back into its two parts: the vertical
      part depends only on `(y, h, imgHeight)` and the horizontal part only
      on `(x, w, imgWidth)`. */
  lemma LocationParts(x: int, y: int, w: int, h: int, imgWidth: int, imgHeight: int)
    ensures var name := Location(x, y, w, h, imgWidth, imgHeight);
      && BeforeFirst(name, '-') == VerticalNames[Third(y, h, imgHeight)]
      && AfterLast(name, '-') == HorizontalNames[Third(x, w, imgWidth)]
  {
    var v := VerticalNames[Third(y, h, imgHeight)];
    var hz := HorizontalNames[Third(x, w, imgWidth)];
    assert '-' !in v;
    assert '-' !in hz;
    assert v + "-" + hz == v + ['-'] + hz;
    BeforeFirstOfJoin(v, '-', hz);
    AfterLastOfJoin(v, '-', hz);
  }
}
