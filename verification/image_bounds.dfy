/** Content-bounds detection and cropping of a decoded RGBA raster
    (services/geminiService.ts, `isBlankPixel`, `getImageBounds`,
    `cropImageToBounds`). A raster is the flat row-major byte buffer that
    `getImageData` hands back: four bytes per pixel, pixel (x, y) at
    offset (y * width + x) * 4. */
module ImageBounds {
  import opened Wrappers

  type Byte = b: int | 0 <= b < 256

  datatype Pixel = Rgba(r: Byte, g: Byte, b: Byte, a: Byte)

  datatype Image = Image(width: nat, height: nat, data: seq<Byte>) {
    /** The buffer holds exactly four bytes for every pixel. */
    predicate Valid() {
      |data| == width * height * 4
    }
  }

  /** `{x, y, width, height}` in source pixel coordinates. */
  datatype Box = Box(x: nat, y: nat, width: nat, height: nat)

  /** The four trackers of the coarse scan. */
  datatype Extent = Extent(minX: nat, minY: nat, maxX: nat, maxY: nat)

  /** `{x: minX, y: minY, width: maxX - minX + 1, height: maxY - minY + 1}`. */
  function CoarseBox(e: Extent): Box
    requires e.minX <= e.maxX && e.minY <= e.maxY
  {
    Box(e.minX, e.minY, e.maxX - e.minX + 1, e.maxY - e.minY + 1)
  }

  // ---------------------------------------------------------------------
  // Pixels

  /** Byte offset of pixel (x, y) in a row-major buffer of the given width. */
  function Offset(width: nat, x: nat, y: nat): nat {
    (y * width + x) * 4
  }

  lemma MulLe(a: nat, b: nat, c: nat)
    requires a <= b
    ensures a * c <= b * c
  {
  }

  /** A run of `n` pixels starting at (x, y) lies inside the buffer. */
  lemma RunInRange(img: Image, x: nat, y: nat, n: nat)
    requires img.Valid() && x + n <= img.width && y < img.height
    ensures Offset(img.width, x, y) + 4 * n <= |img.data|
  {
    MulLe(y + 1, img.height, img.width);
    assert (y + 1) * img.width == y * img.width + img.width;
  }

  function PixelAt(img: Image, x: nat, y: nat): Pixel
    requires img.Valid() && x < img.width && y < img.height
  {
    RunInRange(img, x, y, 1);
    var i := Offset(img.width, x, y);
    Rgba(img.data[i], img.data[i + 1], img.data[i + 2], img.data[i + 3])
  }

  predicate Transparent(alpha: int) {
    alpha < 10
  }

  predicate NearWhite(r: int, g: int, b: int) {
    r > 250 && g > 250 && b > 250
  }

  /** The source's two rules, tried in order: a (nearly) transparent pixel is
      blank whatever its colour; an opaque one is blank when near-white. */
  function IsBlankPixel(r: int, g: int, b: int, alpha: int): (blank: bool)
    ensures blank <==> Transparent(alpha) || NearWhite(r, g, b)
  {
    if alpha < 10 then true
    else if r > 250 && g > 250 && b > 250 then true
    else false
  }

  /** Pixel (x, y) shows garment content. */
  predicate Content(img: Image, x: nat, y: nat)
    requires img.Valid() && x < img.width && y < img.height
  {
    var p := PixelAt(img, x, y);
    !IsBlankPixel(p.r, p.g, p.b, p.a)
  }

  // ---------------------------------------------------------------------
  // What the detected box means

  function FullBox(img: Image): Box {
    Box(0, 0, img.width, img.height)
  }

  predicate InImage(img: Image, b: Box) {
    b.x + b.width <= img.width && b.y + b.height <= img.height
  }

  predicate Inside(b: Box, x: int, y: int) {
    b.x <= x < b.x + b.width && b.y <= y < b.y + b.height
  }

  ghost predicate NoContent(img: Image)
    requires img.Valid()
  {
    forall x: nat, y: nat :: x < img.width && y < img.height ==> !Content(img, x, y)
  }

  /** Every content pixel lies in one column. */
  ghost predicate OneColumn(img: Image)
    requires img.Valid()
  {
    forall x1: nat, y1: nat, x2: nat, y2: nat ::
      (x1 < img.width && y1 < img.height && x2 < img.width && y2 < img.height
       && Content(img, x1, y1) && Content(img, x2, y2)) ==> x1 == x2
  }

  /** Every content pixel lies in one row. */
  ghost predicate OneRow(img: Image)
    requires img.Valid()
  {
    forall x1: nat, y1: nat, x2: nat, y2: nat ::
      (x1 < img.width && y1 < img.height && x2 < img.width && y2 < img.height
       && Content(img, x1, y1) && Content(img, x2, y2)) ==> y1 == y2
  }

  /** The cases in which the source falls back to the whole image: no
      content at all, or content spanning a single column or a single row
      (a lone pixel is both). */
  ghost predicate Degenerate(img: Image)
    requires img.Valid()
  {
    NoContent(img) || OneColumn(img) || OneRow(img)
  }

  ghost predicate RowContent(img: Image, y: nat)
    requires img.Valid() && y < img.height
  {
    exists x: nat :: x < img.width && Content(img, x, y)
  }

  ghost predicate ColumnContent(img: Image, x: nat)
    requires img.Valid() && x < img.width
  {
    exists y: nat :: y < img.height && Content(img, x, y)
  }

  /** `b` is the smallest box holding every content pixel: it lies in the
      image, contains all content, and content touches each of its edges. */
  ghost predicate IsTightBox(img: Image, b: Box)
    requires img.Valid()
  {
    && InImage(img, b) && b.width > 0 && b.height > 0
    && (forall x: nat, y: nat :: x < img.width && y < img.height && Content(img, x, y) ==> Inside(b, x, y))
    && ColumnContent(img, b.x) && ColumnContent(img, b.x + b.width - 1)
    && RowContent(img, b.y) && RowContent(img, b.y + b.height - 1)
  }

  // ---------------------------------------------------------------------
  // The scan

  /** The pixels the coarse scan has visited once it stands at (sx, sy). */
  predicate Scanned(sx: int, sy: int, x: int, y: int) {
    y < sy || (y == sy && x < sx)
  }

  /** Proof-only record of whether content was seen, and of a content pixel
      on each tracked extreme. */
  datatype Witnesses = Witnesses(found: bool, yAtMinX: nat, yAtMaxX: nat, xAtMinY: nat, xAtMaxY: nat)

  /** What the coarse scan knows after visiting the pixels before (sx, sy):
      either nothing was found and the trackers keep their start values, or
      the trackers are the extremes of the visited content, each witnessed by
      a content pixel. */
  ghost predicate ScanState(img: Image, sx: nat, sy: nat, e: Extent, wt: Witnesses)
    requires img.Valid()
  {
    && (!wt.found ==>
          && e.minX == img.width && e.minY == img.height && e.maxX == 0 && e.maxY == 0
          && forall x: nat, y: nat ::
               (x < img.width && y < img.height && Scanned(sx, sy, x, y)) ==> !Content(img, x, y))
    && (wt.found ==>
          && 0 <= e.minX <= e.maxX < img.width && 0 <= e.minY <= e.maxY < img.height
          && wt.yAtMinX < img.height && wt.yAtMaxX < img.height
          && wt.xAtMinY < img.width && wt.xAtMaxY < img.width
          && Content(img, e.minX, wt.yAtMinX) && Content(img, e.maxX, wt.yAtMaxX)
          && Content(img, wt.xAtMinY, e.minY) && Content(img, wt.xAtMaxY, e.maxY)
          && forall x: nat, y: nat ::
               (x < img.width && y < img.height && Scanned(sx, sy, x, y) && Content(img, x, y))
               ==> e.minX <= x <= e.maxX && e.minY <= y <= e.maxY)
  }

  /** The trackers of `e` enclose those of `e0`: `Math.min` and `Math.max`
      only ever move them outward. */
  predicate Outward(e0: Extent, e: Extent) {
    e.minX <= e0.minX && e.minY <= e0.minY && e0.maxX <= e.maxX && e0.maxY <= e.maxY
  }

  /** The source's `Math.min`/`Math.max` update for a content pixel (x, y). */
  function Track(e: Extent, x: nat, y: nat): Extent {
    Extent(Min(e.minX, x), Min(e.minY, y), Max(e.maxX, x), Max(e.maxY, y))
  }

  /** The witnesses that go with `Track`. */
  ghost function TrackWitnesses(e: Extent, wt: Witnesses, x: nat, y: nat): Witnesses {
    Witnesses(true,
      if !wt.found || x < e.minX then y else wt.yAtMinX,
      if !wt.found || x > e.maxX then y else wt.yAtMaxX,
      if !wt.found || y < e.minY then x else wt.xAtMinY,
      if !wt.found || y > e.maxY then x else wt.xAtMaxY)
  }

  lemma ScanContentStep(img: Image, x: nat, y: nat, e: Extent, wt: Witnesses)
    requires img.Valid() && x < img.width && y < img.height
    requires ScanState(img, x, y, e, wt) && Content(img, x, y)
    ensures ScanState(img, x + 1, y, Track(e, x, y), TrackWitnesses(e, wt, x, y))
  {
  }

  lemma ScanBlankStep(img: Image, x: nat, y: nat, e: Extent, wt: Witnesses)
    requires img.Valid() && x < img.width && y < img.height
    requires ScanState(img, x, y, e, wt) && !Content(img, x, y)
    ensures ScanState(img, x + 1, y, e, wt)
  {
  }

  lemma ScanNextRow(img: Image, y: nat, e: Extent, wt: Witnesses)
    requires img.Valid()
    requires ScanState(img, img.width, y, e, wt)
    ensures ScanState(img, 0, y + 1, e, wt)
  {
  }

  /** One row of the coarse scan: visits (0, y) .. (width - 1, y), folding
      every content pixel into the trackers. */
  method ScanRow(img: Image, y: nat, e0: Extent, ghost wt0: Witnesses) returns (e: Extent, ghost wt: Witnesses)
    requires img.Valid() && y < img.height
    requires ScanState(img, 0, y, e0, wt0)
    ensures ScanState(img, 0, y + 1, e, wt)
    ensures Outward(e0, e)
  {
    e, wt := e0, wt0;
    var x := 0;
    while x < img.width
      invariant 0 <= x <= img.width
      invariant ScanState(img, x, y, e, wt)
      invariant Outward(e0, e)
    {
      if Content(img, x, y) {
        ScanContentStep(img, x, y, e, wt);
        e, wt := Track(e, x, y), TrackWitnesses(e, wt, x, y);
      } else {
        ScanBlankStep(img, x, y, e, wt);
      }
      x := x + 1;
    }
    ScanNextRow(img, y, e, wt);
  }

  /** After the whole scan, the source's fallback test picks out exactly the
      degenerate images; an image without content leaves the trackers at
      their start values, and otherwise the trackers span the tight box. */
  lemma CoarseMeaning(img: Image, e: Extent, wt: Witnesses)
    requires img.Valid()
    requires ScanState(img, 0, img.height, e, wt)
    ensures (e.minX >= e.maxX || e.minY >= e.maxY) <==> Degenerate(img)
    ensures NoContent(img) ==> e == Extent(img.width, img.height, 0, 0)
    ensures !NoContent(img) ==> e.minX <= e.maxX && e.minY <= e.maxY && IsTightBox(img, CoarseBox(e))
  {
    if !wt.found {
      assert NoContent(img);
    } else {
      assert !NoContent(img) by {
        assert Content(img, e.minX, wt.yAtMinX);
      }
      if e.minX < e.maxX {
        assert !OneColumn(img) by {
          assert Content(img, e.minX, wt.yAtMinX) && Content(img, e.maxX, wt.yAtMaxX);
        }
      }
      if e.minY < e.maxY {
        assert !OneRow(img) by {
          assert Content(img, wt.xAtMinY, e.minY) && Content(img, wt.xAtMaxY, e.maxY);
        }
      }
    }
  }

  /** The coarse pass of `getImageBounds` over every pixel, row by row: its
      fallback test holds exactly for degenerate images, an image without
      content leaves the trackers untouched, and otherwise the trackers span
      the tight box. */
  method CoarseScan(img: Image) returns (e: Extent)
    requires img.Valid()
    ensures (e.minX >= e.maxX || e.minY >= e.maxY) <==> Degenerate(img)
    ensures NoContent(img) ==> e == Extent(img.width, img.height, 0, 0)
    ensures !NoContent(img) ==> e.minX <= e.maxX && e.minY <= e.maxY && IsTightBox(img, CoarseBox(e))
  {
    e := Extent(img.width, img.height, 0, 0);
    ghost var wt := Witnesses(false, 0, 0, 0, 0);
    var y := 0;
    while y < img.height
      invariant 0 <= y <= img.height
      invariant ScanState(img, 0, y, e, wt)
    {
      e, wt := ScanRow(img, y, e, wt);
      y := y + 1;
    }
    CoarseMeaning(img, e, wt);
  }

  /** A row with content lies between the top and bottom rows of the tight box. */
  lemma RowContentInside(img: Image, b: Box, y: nat)
    requires img.Valid() && y < img.height
    requires IsTightBox(img, b) && RowContent(img, y)
    ensures b.y <= y < b.y + b.height
  {
    var x: nat :| x < img.width && Content(img, x, y);
  }

  /** The inner loop of both refinement passes: does row y hold content? */
  method RowHasContent(img: Image, y: nat) returns (has: bool)
    requires img.Valid() && y < img.height
    ensures has <==> RowContent(img, y)
  {
    has := false;
    var x := 0;
    while x < img.width
      invariant 0 <= x <= img.width
      invariant forall x': nat :: x' < x ==> !Content(img, x', y)
    {
      RunInRange(img, x, y, 1);
      var idx := (y * img.width + x) * 4;
      if !IsBlankPixel(img.data[idx], img.data[idx + 1], img.data[idx + 2], img.data[idx + 3]) {
        assert Content(img, x, y);
        has := true;
        return;
      }
      x := x + 1;
    }
  }

  /** The refinement pass from the top edge: scans rows 0, 1, ... but at most
      up to `minY + 100`, and takes the first row with content. Since no row
      above the coarse `minY` has content and row `minY` has, it stops exactly
      there. */
  method RefineTop(img: Image, minY: nat) returns (actualMinY: nat)
    requires img.Valid() && minY < img.height
    requires RowContent(img, minY)
    requires forall y: nat :: y < minY ==> !RowContent(img, y)
    ensures actualMinY == minY
  {
    actualMinY := minY;
    var y := 0;
    while y < Min(minY + 100, img.height)
      invariant 0 <= y <= minY
      invariant actualMinY == minY
    {
      var hasContent := RowHasContent(img, y);
      if hasContent {
        actualMinY := y;
        break;
      }
      y := y + 1;
    }
  }

  /** The refinement pass from the bottom edge: scans rows height - 1,
      height - 2, ... but no further than `maxY - 100`, and takes the first row
      with content. Since no row below the coarse `maxY` has content and row
      `maxY` has, it stops exactly there. */
  method RefineBottom(img: Image, maxY: nat) returns (actualMaxY: nat)
    requires img.Valid() && maxY < img.height
    requires RowContent(img, maxY)
    requires forall y: nat :: maxY < y < img.height ==> !RowContent(img, y)
    ensures actualMaxY == maxY
  {
    actualMaxY := maxY;
    var y := img.height - 1;
    while y >= Max(0, maxY - 100)
      invariant maxY <= y < img.height
      invariant actualMaxY == maxY
    {
      var hasContent := RowHasContent(img, y);
      if hasContent {
        actualMaxY := y;
        break;
      }
      y := y - 1;
    }
  }

  /** Lines 498-539: the two refinement passes and the final box. Started
      from the tight box found by the coarse scan, they return it unchanged. */
  method Refine(img: Image, e: Extent) returns (b: Box)
    requires img.Valid() && e.minX <= e.maxX && e.minY <= e.maxY
    requires IsTightBox(img, CoarseBox(e))
    ensures b == CoarseBox(e)
  {
    forall y: nat | y < img.height && RowContent(img, y)
      ensures e.minY <= y <= e.maxY
    {
      RowContentInside(img, CoarseBox(e), y);
    }
    var actualMinY := RefineTop(img, e.minY);
    var actualMaxY := RefineBottom(img, e.maxY);
    b := Box(e.minX, actualMinY, e.maxX - e.minX + 1, actualMaxY - actualMinY + 1);
  }

  /** `getImageBounds` as written: the coarse row-major scan, the
      whole-image fallback and the two bounded vertical refinement passes.
      Without a 2-D context the result is the whole image. Otherwise
      `getImageData` is asked for the whole image, and for an image of zero
      width or height it throws an IndexSizeError, modelled as `None`. The
      result is the whole image when the image is degenerate, and otherwise
      the tight box, at least two pixels wide and tall. */
  method GetImageBounds(img: Image, hasContext: bool) returns (r: Option<Box>)
    requires img.Valid()
    ensures r.None? <==> hasContext && (img.width == 0 || img.height == 0)
    ensures r.Some? ==> InImage(img, r.value)
    ensures r.Some? && (!hasContext || Degenerate(img)) ==> r.value == FullBox(img)
    ensures r.Some? && hasContext && !Degenerate(img) ==>
              IsTightBox(img, r.value) && r.value.width >= 2 && r.value.height >= 2
  {
    if !hasContext {
      return Some(FullBox(img));
    }
    if img.width == 0 || img.height == 0 {
      return None;
    }
    var e := CoarseScan(img);
    if e.minX >= e.maxX || e.minY >= e.maxY {
      return Some(FullBox(img));
    }
    var b := Refine(img, e);
    r := Some(b);
  }

  /** `getImageBounds` with the fallback the comment on line 493 describes:
      the whole image only when no content pixel was found (`minX > maxX`),
      so that content one pixel wide or tall is still cropped to. Everything
      else, the zero-size throw included, is as written. */
  method GetImageBoundsIntended(img: Image, hasContext: bool) returns (r: Option<Box>)
    requires img.Valid()
    ensures r.None? <==> hasContext && (img.width == 0 || img.height == 0)
    ensures r.Some? ==> InImage(img, r.value)
    ensures r.Some? && (!hasContext || NoContent(img)) ==> r.value == FullBox(img)
    ensures r.Some? && hasContext && !NoContent(img) ==> IsTightBox(img, r.value)
  {
    if !hasContext {
      return Some(FullBox(img));
    }
    if img.width == 0 || img.height == 0 {
      return None;
    }
    var e := CoarseScan(img);
    if e.minX > e.maxX || e.minY > e.maxY {
      return Some(FullBox(img));
    }
    var b := Refine(img, e);
    r := Some(b);
  }

  /** There is only one tight box: its edges are pinned by the content. */
  lemma TightBoxUnique(img: Image, b1: Box, b2: Box)
    requires img.Valid() && IsTightBox(img, b1) && IsTightBox(img, b2)
    ensures b1 == b2
  {
    TightEdges(img, b1, b2);
    TightEdges(img, b2, b1);
  }

  /** The edges of one tight box lie within another. */
  lemma TightEdges(img: Image, b1: Box, b2: Box)
    requires img.Valid() && IsTightBox(img, b1) && IsTightBox(img, b2)
    ensures b1.x <= b2.x && b2.x + b2.width <= b1.x + b1.width
    ensures b1.y <= b2.y && b2.y + b2.height <= b1.y + b1.height
  {
    var y1: nat :| y1 < img.height && Content(img, b2.x, y1);
    var y2: nat :| y2 < img.height && Content(img, b2.x + b2.width - 1, y2);
    var x1: nat :| x1 < img.width && Content(img, x1, b2.y);
    var x2: nat :| x2 < img.width && Content(img, x2, b2.y + b2.height - 1);
    assert Inside(b1, b2.x, y1) && Inside(b1, b2.x + b2.width - 1, y2);
    assert Inside(b1, x1, b2.y) && Inside(b1, x2, b2.y + b2.height - 1);
  }

  /** A 2 x 1 photo: an opaque black pixel beside an opaque white one. */
  const NarrowPhoto: Image := Image(2, 1, [0, 0, 0, 255, 255, 255, 255, 255])

  /** The photo's content is the single black pixel, so its tight box is
      1 x 1, yet the image is degenerate: the source's fallback fires and the
      crop keeps the blank white column. */
  lemma NarrowPhotoIsDegenerate()
    ensures NarrowPhoto.Valid() && !NoContent(NarrowPhoto) && Degenerate(NarrowPhoto)
    ensures IsTightBox(NarrowPhoto, Box(0, 0, 1, 1)) && FullBox(NarrowPhoto) == Box(0, 0, 2, 1)
  {
    var img := NarrowPhoto;
    assert PixelAt(img, 0, 0) == Rgba(0, 0, 0, 255);
    assert PixelAt(img, 1, 0) == Rgba(255, 255, 255, 255);
    assert Content(img, 0, 0) && !Content(img, 1, 0);
    assert forall x: nat, y: nat :: x < img.width && y < img.height && Content(img, x, y) ==> x == 0 && y == 0;
  }

  /** Both detectors on the narrow photo: as written it returns the whole
      2 x 1 image, as intended the 1 x 1 box around the black pixel. */
  method NarrowPhotoBounds() returns (asWritten: Option<Box>, intended: Option<Box>)
    ensures asWritten == Some(Box(0, 0, 2, 1))
    ensures intended == Some(Box(0, 0, 1, 1))
  {
    NarrowPhotoIsDegenerate();
    asWritten := GetImageBounds(NarrowPhoto, true);
    intended := GetImageBoundsIntended(NarrowPhoto, true);
    TightBoxUnique(NarrowPhoto, intended.value, Box(0, 0, 1, 1));
  }

  // ---------------------------------------------------------------------
  // Cropping

  /** The bytes of row j of box `b`: 4 * b.width bytes from pixel (b.x, b.y + j). */
  function BoxRow(img: Image, b: Box, j: nat): (row: seq<Byte>)
    requires img.Valid() && InImage(img, b) && j < b.height
    ensures |row| == 4 * b.width
  {
    RunInRange(img, b.x, b.y + j, b.width);
    var start := Offset(img.width, b.x, b.y + j);
    img.data[start..start + 4 * b.width]
  }

  /** The first n rows of box `b`, one after the other. */
  function BoxRows(img: Image, b: Box, n: nat): seq<Byte>
    requires img.Valid() && InImage(img, b) && n <= b.height
  {
    if n == 0 then [] else BoxRows(img, b, n - 1) + BoxRow(img, b, n - 1)
  }

  lemma {:induction false} BoxRowsLength(img: Image, b: Box, n: nat)
    requires img.Valid() && InImage(img, b) && n <= b.height
    ensures |BoxRows(img, b, n)| == n * (4 * b.width)
  {
    if n > 0 {
      BoxRowsLength(img, b, n - 1);
      assert n * (4 * b.width) == (n - 1) * (4 * b.width) + 4 * b.width;
    }
  }

  lemma BufferLength(w: nat, h: nat)
    ensures h * (4 * w) == w * h * 4
  {
  }

  lemma RowIndexBound(j: nat, n: nat, len: nat, k: nat)
    requires j < n && k < len
    ensures j * len + k < n * len
  {
    MulLe(j + 1, n, len);
  }

  /** Byte k of row j of the concatenated rows is byte k of that row of the
      source, read at its own offset. */
  lemma {:induction false} BoxRowsAt(img: Image, b: Box, n: nat, j: nat, k: nat)
    requires img.Valid() && InImage(img, b) && n <= b.height
    requires j < n && k < 4 * b.width
    ensures Offset(img.width, b.x, b.y + j) + 4 * b.width <= |img.data|
    ensures j * (4 * b.width) + k < |BoxRows(img, b, n)|
    ensures BoxRows(img, b, n)[j * (4 * b.width) + k] == img.data[Offset(img.width, b.x, b.y + j) + k]
  {
    RunInRange(img, b.x, b.y + j, b.width);
    var len := 4 * b.width;
    BoxRowsLength(img, b, n);
    BoxRowsLength(img, b, n - 1);
    RowIndexBound(j, n, len, k);
    assert BoxRows(img, b, n) == BoxRows(img, b, n - 1) + BoxRow(img, b, n - 1);
    if j < n - 1 {
      BoxRowsAt(img, b, n - 1, j, k);
      RowIndexBound(j, n - 1, len, k);
    } else {
      assert j * len == |BoxRows(img, b, n - 1)|;
    }
  }

  /** `cropImageToBounds`: a new raster the size of the box whose pixel (i, j)
      is source pixel (b.x + i, b.y + j). When no 2-D context can be had the
      fresh canvas is returned as is: the right size, every pixel transparent
      black. */
  function CropImageToBounds(img: Image, b: Box, hasContext: bool): (r: Image)
    requires img.Valid() && InImage(img, b)
    ensures r.Valid() && r.width == b.width && r.height == b.height
    ensures hasContext ==>
              forall i: nat, j: nat :: i < b.width && j < b.height ==>
                PixelAt(r, i, j) == PixelAt(img, b.x + i, b.y + j)
    ensures !hasContext ==>
              forall i: nat, j: nat :: i < b.width && j < b.height ==> PixelAt(r, i, j) == Rgba(0, 0, 0, 0)
  {
    if !hasContext then
      var r := Image(b.width, b.height, seq(b.width * b.height * 4, _ => 0));
      assert forall i: nat, j: nat :: i < b.width && j < b.height ==> PixelAt(r, i, j) == Rgba(0, 0, 0, 0) by {
        forall i: nat, j: nat | i < b.width && j < b.height
          ensures PixelAt(r, i, j) == Rgba(0, 0, 0, 0)
        {
          RunInRange(r, i, j, 1);
        }
      }
      r
    else
      BoxRowsLength(img, b, b.height);
      BufferLength(b.width, b.height);
      var r := Image(b.width, b.height, BoxRows(img, b, b.height));
      assert forall i: nat, j: nat :: i < b.width && j < b.height ==>
               PixelAt(r, i, j) == PixelAt(img, b.x + i, b.y + j) by {
        forall i: nat, j: nat | i < b.width && j < b.height
          ensures PixelAt(r, i, j) == PixelAt(img, b.x + i, b.y + j)
        {
          CropPixel(img, b, i, j);
        }
      }
      r
  }

  lemma CropPixel(img: Image, b: Box, i: nat, j: nat)
    requires img.Valid() && InImage(img, b) && i < b.width && j < b.height
    ensures |BoxRows(img, b, b.height)| == b.width * b.height * 4
    ensures PixelAt(Image(b.width, b.height, BoxRows(img, b, b.height)), i, j)
            == PixelAt(img, b.x + i, b.y + j)
  {
    var rows := BoxRows(img, b, b.height);
    BoxRowsLength(img, b, b.height);
    BufferLength(b.width, b.height);
    CropOffsets(img.width, b, i, j);
    BoxRowsAt(img, b, b.height, j, 4 * i);
    BoxRowsAt(img, b, b.height, j, 4 * i + 1);
    BoxRowsAt(img, b, b.height, j, 4 * i + 2);
    BoxRowsAt(img, b, b.height, j, 4 * i + 3);
    SamePixel(Image(b.width, b.height, rows), i, j, img, b.x + i, b.y + j,
              j * (4 * b.width) + 4 * i, Offset(img.width, b.x, b.y + j) + 4 * i);
  }

  /** Pixel (i, j) of the crop sits at byte j * (4 * width) + 4 * i of the
      crop, and its source pixel 4 * i bytes into row j of the box. */
  lemma CropOffsets(width: nat, b: Box, i: nat, j: nat)
    ensures Offset(b.width, i, j) == j * (4 * b.width) + 4 * i
    ensures Offset(width, b.x + i, b.y + j) == Offset(width, b.x, b.y + j) + 4 * i
  {
  }

  /** Two pixels whose four bytes agree are equal. */
  lemma SamePixel(r: Image, i: nat, j: nat, img: Image, x: nat, y: nat, o: nat, p: nat)
    requires r.Valid() && i < r.width && j < r.height
    requires img.Valid() && x < img.width && y < img.height
    requires o == Offset(r.width, i, j) && p == Offset(img.width, x, y)
    requires o + 4 <= |r.data| && p + 4 <= |img.data|
    requires r.data[o] == img.data[p] && r.data[o + 1] == img.data[p + 1]
    requires r.data[o + 2] == img.data[p + 2] && r.data[o + 3] == img.data[p + 3]
    ensures PixelAt(r, i, j) == PixelAt(img, x, y)
  {
  }

  /** The first n rows of the whole image are the first n * width pixels of
      the buffer. */
  lemma {:induction false} FullRowsArePrefix(img: Image, n: nat)
    requires img.Valid() && n <= img.height
    ensures n * img.width * 4 <= |img.data|
    ensures BoxRows(img, FullBox(img), n) == img.data[..n * img.width * 4]
  {
    MulLe(n, img.height, img.width);
    if n > 0 {
      FullRowsArePrefix(img, n - 1);
      assert Offset(img.width, 0, n - 1) == (n - 1) * img.width * 4;
      assert n * img.width * 4 == (n - 1) * img.width * 4 + 4 * img.width;
      assert img.data[..n * img.width * 4]
          == img.data[..(n - 1) * img.width * 4] + img.data[(n - 1) * img.width * 4..n * img.width * 4];
    }
  }

  /** Cropping an image to its own full extent gives back the same image. */
  lemma CropFullIsIdentity(img: Image)
    requires img.Valid()
    ensures CropImageToBounds(img, FullBox(img), true) == img
  {
    FullRowsArePrefix(img, img.height);
    assert img.height * img.width * 4 == |img.data|;
    assert img.data[..|img.data|] == img.data;
  }

  function Min(a: int, b: int): int { if a <= b then a else b }
  function Max(a: int, b: int): int { if a >= b then a else b }
}
