/** The padded crop box cut around each detection for its preview image. */
module CropGeometry {
  import opened BarcodeTypes

  function Min(a: int, b: int): int { if a <= b then a else b }
  function Max(a: int, b: int): int { if a <= b then b else a }

  /** The padding added on each side: a tenth of the shorter side,
      rounded down (the source's `int(min(w, h) * 0.1)`). */
  function Padding(w: nat, h: nat): (p: nat)
    ensures 10 * p <= w && 10 * p <= h
    ensures w < 10 * (p + 1) || h < 10 * (p + 1)
  {
    Min(w, h) / 10
  }

  /** The box handed to the image library's crop for a detection at `r` in
      an image of `imgWidth` by `imgHeight` pixels: the rectangle grown by
      the padding on every side, its origin clipped at 0 and its right and
      lower edges clipped at the image size. */
  function CropBoxOf(r: Rect, imgWidth: nat, imgHeight: nat): CropBox
  {
    var padding := Padding(r.width, r.height);
    var xPadded := Max(0, r.x - padding);
    var yPadded := Max(0, r.y - padding);
    var wPadded := Min(imgWidth - xPadded, r.width + 2 * padding);
    var hPadded := Min(imgHeight - yPadded, r.height + 2 * padding);
    CropBox(xPadded, yPadded, xPadded + wPadded, yPadded + hPadded)
  }

  /** Each edge of the box is the detection's edge moved out by the
      padding and clipped: left and upper at 0, right and lower at the
      image size; the box never leaves the image, and it reaches past the
      detection's right and lower edges when the detection fits. */
  lemma CropBoxBounds(r: Rect, imgWidth: nat, imgHeight: nat)
    ensures var p, b := Padding(r.width, r.height), CropBoxOf(r, imgWidth, imgHeight);
      && 0 <= b.left <= r.x
      && (p <= r.x ==> b.left == r.x - p)
      && (r.x < p ==> b.left == 0)
      && b.right == Min(imgWidth, b.left + r.width + 2 * p)
    ensures var p, b := Padding(r.width, r.height), CropBoxOf(r, imgWidth, imgHeight);
      && 0 <= b.upper <= r.y
      && (p <= r.y ==> b.upper == r.y - p)
      && (r.y < p ==> b.upper == 0)
      && b.lower == Min(imgHeight, b.upper + r.height + 2 * p)
    ensures var b := CropBoxOf(r, imgWidth, imgHeight);
      && b.right <= imgWidth && b.lower <= imgHeight
      && (r.x + r.width <= imgWidth ==> r.x + r.width <= b.right)
      && (r.y + r.height <= imgHeight ==> r.y + r.height <= b.lower)
  {
  }

  /** A detection that lies inside the image gets a crop box that lies
      inside the image and contains the detection. */
  lemma CropInsideImage(r: Rect, imgWidth: nat, imgHeight: nat)
    requires r.x + r.width <= imgWidth && r.y + r.height <= imgHeight
    ensures var b := CropBoxOf(r, imgWidth, imgHeight);
      && 0 <= b.left <= r.x && r.x + r.width <= b.right <= imgWidth
      && 0 <= b.upper <= r.y && r.y + r.height <= b.lower <= imgHeight
  {
  }

  /** Away from the image edges the box is the detection grown by exactly
      the padding on each of its four sides. */
  lemma CropAwayFromEdges(r: Rect, imgWidth: nat, imgHeight: nat)
    requires var p := Padding(r.width, r.height);
      p <= r.x && r.x + r.width + p <= imgWidth &&
      p <= r.y && r.y + r.height + p <= imgHeight
    ensures var p := Padding(r.width, r.height);
      CropBoxOf(r, imgWidth, imgHeight) ==
        CropBox(r.x - p, r.y - p, r.x + r.width + p, r.y + r.height + p)
  {
  }
}
