/** The flat-lay composition of `generateTryOnVisual`
    (services/geminiService.ts): both garments are cropped to their content,
    shown at one common width, scaled down together to a height cap, stacked
    with no gap and centred on an 800-unit-wide canvas. The arithmetic is
    exact (`real`); the source computes it in IEEE doubles. */
module FlatLay {
  import opened Wrappers
  import opened ImageBounds

  const CanvasWidth: real := 800.0
  const Padding: real := 20.0
  const Gap: real := 0.0
  const MaxTotalHeight: real := 700.0
  const AvailableWidth: real := CanvasWidth - Padding * 2.0

  /** Where one garment is drawn: `drawImage(img, x, y, width, height)`. */
  datatype Placement = Placement(x: real, y: real, width: real, height: real)

  /** `canvasHeight` is what the canvas keeps of the computed height: the
      `height` attribute is an unsigned integer, so the fraction is dropped. */
  datatype Layout = Layout(canvasWidth: real, totalHeight: real, canvasHeight: int,
                           top: Placement, bottom: Placement)

  function MinR(a: real, b: real): real { if a <= b then a else b }

  /** The width both garments are shown at before scaling. */
  function TargetWidth(topW: nat, bottomW: nat): (w: real)
    ensures w <= AvailableWidth && w <= topW as real && w <= bottomW as real
    ensures w == AvailableWidth || w == topW as real || w == bottomW as real
  {
    MinR(AvailableWidth, MinR(topW as real, bottomW as real))
  }

  /** The height a crop of size w x h is shown at when its width is `width`:
      `width / (w / h)`. */
  function DisplayHeight(width: real, w: nat, h: nat): (d: real)
    requires w > 0 && h > 0 && width > 0.0
    ensures d > 0.0
  {
    width / (w as real / h as real)
  }

  /** The display height keeps the crop's aspect ratio. */
  lemma DisplayHeightRatio(width: real, w: nat, h: nat)
    requires w > 0 && h > 0 && width > 0.0
    ensures DisplayHeight(width, w, h) * w as real == width * h as real
  {
    var ratio := w as real / h as real;
    assert ratio * h as real == w as real;
    var d := width / ratio;
    assert d * ratio == width;
    calc {
      d * w as real;
      d * (ratio * h as real);
      (d * ratio) * h as real;
      width * h as real;
    }
  }

  /** The combined display height before scaling. */
  function UnscaledHeight(topW: nat, topH: nat, bottomW: nat, bottomH: nat): real
    requires topW > 0 && topH > 0 && bottomW > 0 && bottomH > 0
  {
    var t := TargetWidth(topW, bottomW);
    DisplayHeight(t, topW, topH) + Gap + DisplayHeight(t, bottomW, bottomH)
  }

  /** The factor both garments are scaled by: 1 when the stack fits the cap,
      otherwise the factor that makes it exactly as tall as the cap. */
  function ScaleFactor(current: real): (s: real)
    requires current > 0.0
    ensures 0.0 < s <= 1.0
    ensures current <= MaxTotalHeight ==> s == 1.0
    ensures current > MaxTotalHeight ==> current * s == MaxTotalHeight
  {
    if current > MaxTotalHeight then MaxTotalHeight / current else 1.0
  }

  lemma ScaleKeepsRatio(a: real, b: real, w: real, h: real, s: real)
    requires a * h == b * w
    ensures (a * s) * h == (b * s) * w
  {
    calc {
      (a * s) * h;
      (a * h) * s;
      (b * w) * s;
      (b * s) * w;
    }
  }

  lemma ScaleSum(x: real, y: real, s: real)
    ensures x * s + y * s == (x + y) * s
  {
  }

  lemma ScaleDown(x: real, s: real)
    requires x > 0.0 && 0.0 < s <= 1.0
    ensures 0.0 < x * s <= x
  {
  }

  /** The drawn sizes of the two garments. */
  datatype Sizes = Sizes(topWidth: real, topHeight: real, bottomWidth: real, bottomHeight: real)

  /** Lines 635-642: the stack of two garments shown `width` wide and
      `topH`, `bottomH` tall, scaled down together to the height cap. Both
      stay equally wide, no size grows, and the stack is scaled exactly when
      it was taller than the cap, in which case it ends exactly as tall. */
  function ScaleStack(width: real, topH: real, bottomH: real): (z: Sizes)
    requires 0.0 < width && 0.0 < topH && 0.0 < bottomH
    ensures z.topWidth == z.bottomWidth && 0.0 < z.topWidth <= width
    ensures 0.0 < z.topHeight <= topH && 0.0 < z.bottomHeight <= bottomH
    ensures z.topHeight + Gap + z.bottomHeight <= MaxTotalHeight
    ensures topH + Gap + bottomH <= MaxTotalHeight ==> z == Sizes(width, topH, width, bottomH)
    ensures topH + Gap + bottomH > MaxTotalHeight ==> z.topHeight + Gap + z.bottomHeight == MaxTotalHeight
  {
    var s := ScaleFactor(topH + Gap + bottomH);
    ScaleSum(topH, bottomH, s);
    ScaleDown(width, s);
    ScaleDown(topH, s);
    ScaleDown(bottomH, s);
    Sizes(width * s, topH * s, width * s, bottomH * s)
  }

  /** Lines 612-671: display sizes, the uniform scale-down, the canvas height
      and the two draw positions for crops of the given sizes. */
  function ComputeLayout(topW: nat, topH: nat, bottomW: nat, bottomH: nat): (l: Layout)
    requires topW > 0 && topH > 0 && bottomW > 0 && bottomH > 0
    // one display width for both, never wider than either crop or the canvas
    ensures l.top.width == l.bottom.width > 0.0
    ensures l.top.width <= TargetWidth(topW, bottomW)
    // the stack fits the height cap; it is scaled only when it did not fit
    ensures l.top.height > 0.0 && l.bottom.height > 0.0
    ensures l.top.height + l.bottom.height <= MaxTotalHeight
    ensures UnscaledHeight(topW, topH, bottomW, bottomH) <= MaxTotalHeight ==>
              l.top.width == TargetWidth(topW, bottomW)
    ensures UnscaledHeight(topW, topH, bottomW, bottomH) > MaxTotalHeight ==>
              l.top.height + l.bottom.height == MaxTotalHeight
    // padding above and below, no gap, both centred horizontally
    ensures l.canvasWidth == CanvasWidth
    ensures l.totalHeight == Padding + l.top.height + l.bottom.height + Padding
    ensures l.canvasHeight as real <= l.totalHeight < l.canvasHeight as real + 1.0
    ensures l.top.y == Padding && l.bottom.y == l.top.y + l.top.height
    ensures l.bottom.y + l.bottom.height + Padding == l.totalHeight
    ensures l.top.x + l.top.width / 2.0 == CanvasWidth / 2.0
    ensures l.bottom.x + l.bottom.width / 2.0 == CanvasWidth / 2.0
    ensures Padding <= l.top.x && l.top.x + l.top.width <= CanvasWidth - Padding
  {
    var target := TargetWidth(topW, bottomW);
    var z := ScaleStack(target, DisplayHeight(target, topW, topH), DisplayHeight(target, bottomW, bottomH));
    var totalHeight := Padding + z.topHeight + Gap + z.bottomHeight + Padding;
    var topY := Padding;
    Layout(CanvasWidth, totalHeight, totalHeight.Floor,
           Centred(z.topWidth, z.topHeight, topY),
           Centred(z.bottomWidth, z.bottomHeight, topY + z.topHeight + Gap))
  }

  /** `x = padding + (availableWidth - w) / 2`: a garment of width `w` drawn
      at height `y`, centred between the side paddings. */
  function Centred(w: real, h: real, y: real): (p: Placement)
    requires 0.0 < w <= AvailableWidth
    ensures p.width == w && p.height == h && p.y == y
    ensures p.x + p.width / 2.0 == CanvasWidth / 2.0
    ensures Padding <= p.x && p.x + p.width <= CanvasWidth - Padding
  {
    Placement(Padding + (AvailableWidth - w) / 2.0, y, w, h)
  }

  /** The drawn sizes are the display sizes `t` x `topD` and `t` x
      `bottomD`, all multiplied by the one factor `s`. */
  predicate UniformlyScaled(l: Layout, t: real, s: real, topD: real, bottomD: real) {
    && l.top.width == t * s && l.bottom.width == t * s
    && l.top.height == topD * s && l.bottom.height == bottomD * s
  }

  /** Both garments are scaled by one factor: the drawn sizes are the
      unscaled display sizes times the scale factor. */
  lemma LayoutIsUniformScale(topW: nat, topH: nat, bottomW: nat, bottomH: nat)
    requires topW > 0 && topH > 0 && bottomW > 0 && bottomH > 0
    ensures UniformlyScaled(ComputeLayout(topW, topH, bottomW, bottomH),
                            TargetWidth(topW, bottomW),
                            ScaleFactor(UnscaledHeight(topW, topH, bottomW, bottomH)),
                            DisplayHeight(TargetWidth(topW, bottomW), topW, topH),
                            DisplayHeight(TargetWidth(topW, bottomW), bottomW, bottomH))
  {
  }

  /** `p` has the aspect ratio of a w x h crop. */
  predicate KeepsRatio(p: Placement, w: nat, h: nat) {
    p.width * h as real == p.height * w as real
  }

  /** Each garment is drawn with its crop's aspect ratio. */
  lemma LayoutKeepsAspectRatios(topW: nat, topH: nat, bottomW: nat, bottomH: nat)
    requires topW > 0 && topH > 0 && bottomW > 0 && bottomH > 0
    ensures KeepsRatio(ComputeLayout(topW, topH, bottomW, bottomH).top, topW, topH)
    ensures KeepsRatio(ComputeLayout(topW, topH, bottomW, bottomH).bottom, bottomW, bottomH)
  {
    LayoutIsUniformScale(topW, topH, bottomW, bottomH);
    ScaledLayoutKeepsRatios(ComputeLayout(topW, topH, bottomW, bottomH), topW, topH, bottomW, bottomH,
                            TargetWidth(topW, bottomW),
                            ScaleFactor(UnscaledHeight(topW, topH, bottomW, bottomH)));
  }

  /** Scaling display sizes that keep the crops' ratios keeps them. */
  lemma ScaledLayoutKeepsRatios(l: Layout, topW: nat, topH: nat, bottomW: nat, bottomH: nat, t: real, s: real)
    requires topW > 0 && topH > 0 && bottomW > 0 && bottomH > 0 && t > 0.0
    requires UniformlyScaled(l, t, s, DisplayHeight(t, topW, topH), DisplayHeight(t, bottomW, bottomH))
    ensures KeepsRatio(l.top, topW, topH) && KeepsRatio(l.bottom, bottomW, bottomH)
  {
    DisplayHeightRatio(t, topW, topH);
    ScaleKeepsRatio(t, DisplayHeight(t, topW, topH), topW as real, topH as real, s);
    DisplayHeightRatio(t, bottomW, bottomH);
    ScaleKeepsRatio(t, DisplayHeight(t, bottomW, bottomH), bottomW as real, bottomH as real, s);
  }

  /** The worked example: a 400 x 300 top over a 500 x 1000 bottom is shown
      400 wide, 300 + 800 = 1100 tall, so both are scaled by 700 / 1100 and the
      canvas is 740 tall. */
  lemma WorkedExample()
    ensures var l := ComputeLayout(400, 300, 500, 1000);
      && l.top.width == l.bottom.width == 2800.0 / 11.0
      && l.top.height == 2100.0 / 11.0 && l.bottom.height == 5600.0 / 11.0
      && l.totalHeight == 740.0 && l.canvasHeight == 740
      && l.bottom.y == 20.0 + 2100.0 / 11.0
  {
    assert TargetWidth(400, 500) == 400.0;
    assert DisplayHeight(400.0, 400, 300) == 300.0;
    assert DisplayHeight(400.0, 500, 1000) == 800.0;
    assert ScaleFactor(1100.0) == 7.0 / 11.0;
  }

  // ---------------------------------------------------------------------
  // The whole local composition

  /** What the composition draws: each garment's detected box, its crop, and
      the layout the crops are drawn with. Encoding the canvas as a JPEG data
      URL is not modelled. */
  datatype Composition = Composition(topBox: Box, bottomBox: Box,
                                     topCrop: Image, bottomCrop: Image,
                                     layout: Layout)

  /** `IndexSizeError` is what `getImageData` throws, inside the `try`, for
      a photo of zero width or height. */
  datatype ComposeError = CanvasNotSupported | ImagesFailedToLoad | IndexSizeError

  datatype ComposeResult = Composed(value: Composition) | Rejected(error: ComposeError)

  /** A decoded garment photo of positive size. */
  predicate Decoded(img: Image) {
    img.Valid() && img.width > 0 && img.height > 0
  }

  /** What `getImageBounds` as written guarantees about its box on a photo
      of positive size: the whole image when it is degenerate, and otherwise
      the tight box. */
  ghost predicate DetectedBox(img: Image, b: Box)
    requires img.Valid()
  {
    && InImage(img, b)
    && (Degenerate(img) ==> b == FullBox(img))
    && (!Degenerate(img) ==> IsTightBox(img, b))
  }

  /** The same for the corrected detection: the whole image only when there
      is no content. */
  ghost predicate DetectedBoxIntended(img: Image, b: Box)
    requires img.Valid()
  {
    && InImage(img, b)
    && (NoContent(img) ==> b == FullBox(img))
    && (!NoContent(img) ==> IsTightBox(img, b))
  }

  /** Lines 610-671 once both boxes are known: each photo is cropped to its
      box and the crops are laid out; each garment is drawn with its crop's
      aspect ratio, which is its box's. */
  function ComposeCrops(top: Image, bottom: Image, topBox: Box, bottomBox: Box): (c: Composition)
    requires top.Valid() && InImage(top, topBox) && topBox.width > 0 && topBox.height > 0
    requires bottom.Valid() && InImage(bottom, bottomBox) && bottomBox.width > 0 && bottomBox.height > 0
    ensures c.topBox == topBox && c.bottomBox == bottomBox
    ensures c.topCrop == CropImageToBounds(top, topBox, true)
    ensures c.bottomCrop == CropImageToBounds(bottom, bottomBox, true)
    ensures KeepsRatio(c.layout.top, topBox.width, topBox.height)
    ensures KeepsRatio(c.layout.bottom, bottomBox.width, bottomBox.height)
    ensures c.layout.top.height + c.layout.bottom.height <= MaxTotalHeight
  {
    var croppedTop := CropImageToBounds(top, topBox, true);
    var croppedBottom := CropImageToBounds(bottom, bottomBox, true);
    LayoutKeepsAspectRatios(croppedTop.width, croppedTop.height, croppedBottom.width, croppedBottom.height);
    Composition(topBox, bottomBox, croppedTop, croppedBottom,
                ComputeLayout(croppedTop.width, croppedTop.height, croppedBottom.width, croppedBottom.height))
  }

  /** The local branch of `generateTryOnVisual`. `canvasSupported` says
      whether a 2-D context can be had (the same for every canvas); a photo
      that failed to load is `None`. The promise rejects when there is no
      context, when either photo fails to load, or when `getImageBounds`
      throws for a photo of zero size; otherwise both photos are cropped to
      the boxes `getImageBounds` finds, as written, and the crops are laid
      out by `ComputeLayout`. */
  method GenerateFlatLay(canvasSupported: bool, top: Option<Image>, bottom: Option<Image>)
    returns (r: ComposeResult)
    requires top.Some? ==> top.value.Valid()
    requires bottom.Some? ==> bottom.value.Valid()
    ensures !canvasSupported ==> r == Rejected(CanvasNotSupported)
    ensures canvasSupported && (top.None? || bottom.None?) ==> r == Rejected(ImagesFailedToLoad)
    ensures canvasSupported && top.Some? && bottom.Some? && !(Decoded(top.value) && Decoded(bottom.value)) ==>
              r == Rejected(IndexSizeError)
    ensures canvasSupported && top.Some? && bottom.Some? && Decoded(top.value) && Decoded(bottom.value) ==>
              && r.Composed?
              && DetectedBox(top.value, r.value.topBox)
              && DetectedBox(bottom.value, r.value.bottomBox)
              && r.value == ComposeCrops(top.value, bottom.value, r.value.topBox, r.value.bottomBox)
  {
    if !canvasSupported {
      return Rejected(CanvasNotSupported);
    }
    if top.None? || bottom.None? {
      return Rejected(ImagesFailedToLoad);
    }
    var topBox := GetImageBounds(top.value, true);
    var bottomBox := GetImageBounds(bottom.value, true);
    if topBox.None? || bottomBox.None? {
      return Rejected(IndexSizeError);
    }
    r := Composed(ComposeCrops(top.value, bottom.value, topBox.value, bottomBox.value));
  }

  /** The composition with the corrected detection `GetImageBoundsIntended`:
      the same steps, but content one pixel wide or tall is cropped to. */
  method GenerateFlatLayIntended(canvasSupported: bool, top: Option<Image>, bottom: Option<Image>)
    returns (r: ComposeResult)
    requires top.Some? ==> top.value.Valid()
    requires bottom.Some? ==> bottom.value.Valid()
    ensures !canvasSupported ==> r == Rejected(CanvasNotSupported)
    ensures canvasSupported && (top.None? || bottom.None?) ==> r == Rejected(ImagesFailedToLoad)
    ensures canvasSupported && top.Some? && bottom.Some? && !(Decoded(top.value) && Decoded(bottom.value)) ==>
              r == Rejected(IndexSizeError)
    ensures canvasSupported && top.Some? && bottom.Some? && Decoded(top.value) && Decoded(bottom.value) ==>
              && r.Composed?
              && DetectedBoxIntended(top.value, r.value.topBox)
              && DetectedBoxIntended(bottom.value, r.value.bottomBox)
              && r.value == ComposeCrops(top.value, bottom.value, r.value.topBox, r.value.bottomBox)
  {
    if !canvasSupported {
      return Rejected(CanvasNotSupported);
    }
    if top.None? || bottom.None? {
      return Rejected(ImagesFailedToLoad);
    }
    var topBox := GetImageBoundsIntended(top.value, true);
    var bottomBox := GetImageBoundsIntended(bottom.value, true);
    if topBox.None? || bottomBox.None? {
      return Rejected(IndexSizeError);
    }
    r := Composed(ComposeCrops(top.value, bottom.value, topBox.value, bottomBox.value));
  }
}
