/** The image composer: the font-fitting loop shared by `drawPostImage` and
    `drawCoverImage`, the cover-crop of a panel's background and where the
    text block starts.  Pixels are not modelled: an image is described by
    what is drawn on it and where. */
module Layout {
  import opened JsString
  import opened LineWrap

  /** Every image is a square canvas of this side, in pixels. */
  const Side: real := 1080.0
  /** Height of a panel's gradient band: `height * 0.45`. */
  const FadeHeight: real := Side * 0.45
  /** Text may use this much of the width: `width * 0.8`. */
  const MaxTextWidth: real := Side * 0.8
  /** A panel's text block must fit in 90% of the band: `fadeHeight * 0.9`. */
  const PanelMaxHeight: real := FadeHeight * 0.9
  /** The cover's text block must fit in 80% of the canvas: `height * 0.8`. */
  const CoverMaxHeight: real := Side * 0.8

  const PanelStartSize: int := 35
  const PanelMinSize: int := 16
  const CoverStartSize: int := 60
  const CoverMinSize: int := 20

  /** Where a panel's gradient band and text go. */
  datatype Position = Bottom | Top

  type Extent = x: real | x > 0.0 witness 1.0

  /** Size in pixels of a decoded background image. */
  datatype Dims = Dims(width: Extent, height: Extent)

  /** How a background is scaled and placed: `drawImage(bg, dx, dy, width, height)`. */
  datatype Crop = Crop(scale: real, width: real, height: real, dx: real, dy: real)

  /** The text drawn on an image.  `fontSize` is the fitting loop's variable
      when the loop ends: it sets the line pitch (and the shadow blur).
      `faceSize` is the size the font was last set to, at which the lines are
      drawn: the same, except when no size fits and the loop steps once more
      below the minimum. */
  datatype TextBlock = TextBlock(fontSize: int, faceSize: int, lines: seq<string>, lineHeight: real, startY: real)

  /** The size the font was last set to by a fitting loop that ended at `fontSize`. */
  function FaceSize(fontSize: int, minSize: int): int {
    if fontSize >= minSize then fontSize else fontSize + 2
  }

  /** A composed image, standing for the PNG buffer. */
  datatype Image =
    | Cover(title: string, block: TextBlock)
    | Panel(background: string, text: string, position: Position, crop: Crop, block: TextBlock)

  /** Fetching or decoding a panel's background failed. */
  datatype CompositionError = BackgroundUnavailable(url: string)

  // ------------------------------------------------------------ fitting

  /** `lines.length * lineHeight` with `lineHeight = fontSize * 1.2`. */
  function TextHeight(lineCount: nat, size: int): (h: real)
    ensures size >= 0 ==> h >= 0.0
  {
    lineCount as real * (size as real * 1.2)
  }

  /** Whether the text, wrapped at each font size, is no taller than `maxHeight`. */
  function FitsAt(m: Measure, text: string, maxHeight: real): int -> bool {
    size => TextHeight(|Wrap(m, size, text, MaxTextWidth)|, size) <= maxHeight
  }

  /** The size the fitting loop ends with, starting from `size` and stepping
      down by 2 while at least `minSize`: the first size that fits, or the
      first size below `minSize` when none does. */
  function FirstFit(fits: int -> bool, size: int, minSize: int): (r: int)
    ensures r <= size && (size - r) % 2 == 0
    ensures r >= minSize ==> fits(r)
    ensures size >= minSize && r < minSize ==> minSize <= r + 2 && !fits(r + 2)
    ensures forall s :: r < s <= size && (size - s) % 2 == 0 ==> !fits(s)
    decreases if size < minSize then 0 else size - minSize + 1
  {
    if size < minSize then size
    else if fits(size) then size
    else FirstFit(fits, size - 2, minSize)
  }

  /** The fitting loop of `drawPostImage` and `drawCoverImage`: wrap at
      `fontSize`, stop when the block fits, else step down by 2 while the
      size is at least `minSize`. */
  method FitFont(m: Measure, text: string, start: int, minSize: int, maxHeight: real)
    returns (fontSize: int, lines: seq<string>)
    ensures fontSize == FirstFit(FitsAt(m, text, maxHeight), start, minSize)
    ensures fontSize >= minSize ==> lines == Wrap(m, fontSize, text, MaxTextWidth)
    ensures fontSize < minSize && start >= minSize ==> lines == Wrap(m, fontSize + 2, text, MaxTextWidth)
    ensures start < minSize ==> lines == []
  {
    fontSize := start;
    lines := [];
    while fontSize >= minSize
      invariant fontSize <= start
      invariant FirstFit(FitsAt(m, text, maxHeight), fontSize, minSize) == FirstFit(FitsAt(m, text, maxHeight), start, minSize)
      invariant lines == if fontSize == start then [] else Wrap(m, fontSize + 2, text, MaxTextWidth)
      decreases fontSize - minSize
    {
      lines := WrapTextLines(m, fontSize, text, MaxTextWidth);
      if TextHeight(|lines|, fontSize) <= maxHeight {
        break;
      }
      fontSize := fontSize - 2;
    }
  }

  /** Where the loop can end: within one step below `minSize`, at a size
      that fits, or below `minSize` exactly when no size tried fits. */
  lemma FirstFitEnds(fits: int -> bool, start: int, minSize: int)
    requires minSize <= start
    ensures var s := FirstFit(fits, start, minSize);
      && minSize - 2 <= s <= start && (start - s) % 2 == 0
      && (s >= minSize ==> fits(s))
      && (s < minSize <==> forall k :: minSize <= k <= start && (start - k) % 2 == 0 ==> !fits(k))
  {
  }

  /** A test that passes more sizes never makes the chosen font smaller. */
  lemma {:induction false} FirstFitMonotone(weak: int -> bool, strong: int -> bool, size: int, minSize: int)
    requires forall k :: weak(k) ==> strong(k)
    ensures FirstFit(weak, size, minSize) <= FirstFit(strong, size, minSize)
    decreases if size < minSize then 0 else size - minSize + 1
  {
    if size >= minSize && !strong(size) {
      FirstFitMonotone(weak, strong, size - 2, minSize);
    }
  }

  /** A taller box never makes the chosen font smaller. */
  lemma TallerBoxLargerFont(m: Measure, text: string, start: int, minSize: int, low: real, high: real)
    requires low <= high
    ensures FirstFit(FitsAt(m, text, low), start, minSize) <= FirstFit(FitsAt(m, text, high), start, minSize)
  {
    FirstFitMonotone(FitsAt(m, text, low), FitsAt(m, text, high), start, minSize);
  }

  // ------------------------------------------------------------ geometry

  function Max(a: real, b: real): real {
    if a >= b then a else b
  }

  /** Scale the background to cover the canvas, keeping its aspect ratio, and
      centre the overflow. */
  function CoverCrop(d: Dims): (c: Crop)
    ensures c.width >= Side && c.height >= Side && (c.width == Side || c.height == Side)
    ensures c.width * d.height == c.height * d.width
    ensures c.dx <= 0.0 && c.dy <= 0.0
    ensures -c.dx == c.dx + c.width - Side && -c.dy == c.dy + c.height - Side
    ensures c.scale == Max(Side / d.width, Side / d.height)
    ensures c.width == d.width * c.scale && c.height == d.height * c.scale
  {
    var scale := Max(Side / d.width, Side / d.height);
    CropFacts(d.width, d.height, scale);
    var w, h := d.width * scale, d.height * scale;
    Crop(scale, w, h, (Side - w) / 2.0, (Side - h) / 2.0)
  }

  lemma CropFacts(w: real, h: real, scale: real)
    requires w > 0.0 && h > 0.0 && scale == Max(Side / w, Side / h)
    ensures w * scale >= Side && h * scale >= Side
    ensures w * scale == Side || h * scale == Side
  {
    if Side / w >= Side / h {
      assert w * scale == Side;
      assert h * (Side / h) == Side;
      assert h * scale >= h * (Side / h);
    } else {
      assert h * scale == Side;
      assert w * (Side / w) == Side;
      assert w * scale >= w * (Side / w);
    }
  }

  /** The text block, `textHeight` tall from `startY`, lies in the panel's band. */
  predicate InBand(position: Position, startY: real, textHeight: real) {
    match position
    case Bottom => Side - FadeHeight <= startY && startY + textHeight <= Side
    case Top => 0.0 <= startY && startY + textHeight <= FadeHeight
  }

  /** First line's top on a panel: centred in the bottom band, or a third of
      the free space down in the top band. */
  function PanelStartY(position: Position, textHeight: real): (y: real)
    ensures position == Bottom ==> y - (Side - FadeHeight) == Side - (y + textHeight)
    ensures position == Top ==> 2.0 * y == FadeHeight - (y + textHeight)
    ensures 0.0 <= textHeight <= FadeHeight ==> InBand(position, y, textHeight)
  {
    match position
    case Bottom => Side - FadeHeight + (FadeHeight - textHeight) / 2.0
    case Top => (FadeHeight - textHeight) / 3.0
  }

  /** First line's top on the cover: the block is centred vertically. */
  function CoverStartY(textHeight: real): (y: real)
    ensures y == Side - (y + textHeight)
    ensures 0.0 <= textHeight <= CoverMaxHeight ==> Side * 0.1 <= y && y + textHeight <= Side * 0.9
  {
    (Side - textHeight) / 2.0
  }

  // ------------------------------------------------------------ composing

  /** drawPostImage: the background scaled to cover the canvas, the text fitted
      from 35px down into the band and placed by position.  A background that
      cannot be fetched or decoded is an error. */
  method DrawPostImage(m: Measure, backgrounds: map<string, Dims>, url: string, text: string, position: Position)
    returns (r: Result<Image, CompositionError>)
    ensures r.Err? <==> url !in backgrounds
    ensures r.Err? ==> r.error == BackgroundUnavailable(url)
    ensures r.Ok? ==> r.value.Panel? && r.value.background == url && r.value.text == text
                      && r.value.position == position && r.value.crop == CoverCrop(backgrounds[url])
    ensures r.Ok? ==> var b := r.value.block;
      && b.fontSize == FirstFit(FitsAt(m, text, PanelMaxHeight), PanelStartSize, PanelMinSize)
      && b.faceSize == FaceSize(b.fontSize, PanelMinSize)
      && PanelMinSize <= b.faceSize <= PanelStartSize
      && b.lines == Wrap(m, b.faceSize, text, MaxTextWidth)
      && b.lineHeight == b.fontSize as real * 1.2
      && b.startY == PanelStartY(position, TextHeight(|b.lines|, b.fontSize))
    ensures r.Ok? && r.value.block.fontSize >= PanelMinSize ==>
      InBand(position, r.value.block.startY, TextHeight(|r.value.block.lines|, r.value.block.fontSize))
  {
    if url !in backgrounds {
      return Err(BackgroundUnavailable(url));
    }
    var crop := CoverCrop(backgrounds[url]);
    var fontSize, lines := FitFont(m, text, PanelStartSize, PanelMinSize, PanelMaxHeight);
    var textHeight := TextHeight(|lines|, fontSize);
    assert fontSize >= PanelMinSize ==> 0.0 <= textHeight <= FadeHeight by {
      if fontSize >= PanelMinSize {
        assert FitsAt(m, text, PanelMaxHeight)(fontSize);
      }
    }
    var startY := PanelStartY(position, textHeight);
    r := Ok(Panel(url, text, position, crop, TextBlock(fontSize, FaceSize(fontSize, PanelMinSize), lines, fontSize as real * 1.2, startY)));
  }

  /** drawCoverImage: the title fitted from 60px down into 80% of the canvas
      and centred vertically on the fixed cover background. */
  method DrawCoverImage(m: Measure, title: string) returns (img: Image)
    ensures img.Cover? && img.title == title
    ensures var b := img.block;
      && b.fontSize == FirstFit(FitsAt(m, title, CoverMaxHeight), CoverStartSize, CoverMinSize)
      && b.faceSize == FaceSize(b.fontSize, CoverMinSize)
      && CoverMinSize <= b.faceSize <= CoverStartSize
      && b.lines == Wrap(m, b.faceSize, title, MaxTextWidth)
      && b.lineHeight == b.fontSize as real * 1.2
      && b.startY == CoverStartY(TextHeight(|b.lines|, b.fontSize))
    ensures img.block.fontSize >= CoverMinSize ==>
      var h := TextHeight(|img.block.lines|, img.block.fontSize);
      Side * 0.1 <= img.block.startY && img.block.startY + h <= Side * 0.9
  {
    var fontSize, lines := FitFont(m, title, CoverStartSize, CoverMinSize, CoverMaxHeight);
    var textHeight := TextHeight(|lines|, fontSize);
    img := Cover(title, TextBlock(fontSize, FaceSize(fontSize, CoverMinSize), lines, fontSize as real * 1.2, CoverStartY(textHeight)));
  }

  // ------------------------------------------------------------ the two instances

  /** Panel text is drawn at the first of 35, 33, ..., 17 that fits in the band
      (`fits` is `FitsAt(m, text, PanelMaxHeight)` in DrawPostImage); when none
      does the loop ends at 15 and the lines wrapped at 17 are drawn. */
  lemma PanelSizes(fits: int -> bool)
    ensures var s := FirstFit(fits, PanelStartSize, PanelMinSize);
      && s % 2 == 1 && 15 <= s <= 35
      && (s >= 17 ==> fits(s))
      && (s == 15 <==> forall k :: 17 <= k <= 35 && k % 2 == 1 ==> !fits(k))
  {
    SizesOfStep(fits, PanelStartSize, PanelMinSize);
    assert PanelStartSize % 2 == 1;
    var s := FirstFit(fits, PanelStartSize, PanelMinSize);
    assert s % 2 == 1 && 14 <= s;
    assert (forall k :: PanelMinSize <= k <= PanelStartSize && k % 2 == 1 ==> !fits(k))
       <==> (forall k :: 17 <= k <= 35 && k % 2 == 1 ==> !fits(k));
  }

  /** Cover text is drawn at the first of 60, 58, ..., 20 that fits in 864px
      (`fits` is `FitsAt(m, title, CoverMaxHeight)` in DrawCoverImage); when none
      does the loop ends at 18 and the lines wrapped at 20 are drawn. */
  lemma CoverSizes(fits: int -> bool)
    ensures var s := FirstFit(fits, CoverStartSize, CoverMinSize);
      && s % 2 == 0 && 18 <= s <= 60
      && (s >= 20 ==> fits(s))
      && (s == 18 <==> forall k :: 20 <= k <= 60 && k % 2 == 0 ==> !fits(k))
  {
    SizesOfStep(fits, CoverStartSize, CoverMinSize);
    assert CoverStartSize % 2 == 0;
    var s := FirstFit(fits, CoverStartSize, CoverMinSize);
    assert s % 2 == 0 && 18 <= s;
    assert (forall k :: CoverMinSize <= k <= CoverStartSize && k % 2 == 0 ==> !fits(k))
       <==> (forall k :: 20 <= k <= 60 && k % 2 == 0 ==> !fits(k));
  }

  /** FirstFitEnds with the step parity stated as the parity of the start. */
  lemma SizesOfStep(fits: int -> bool, start: int, minSize: int)
    requires minSize <= start
    ensures var s := FirstFit(fits, start, minSize);
      && s % 2 == start % 2 && minSize - 2 <= s <= start
      && (s >= minSize ==> fits(s))
      && (s < minSize <==> forall k :: minSize <= k <= start && k % 2 == start % 2 ==> !fits(k))
  {
    FirstFitEnds(fits, start, minSize);
    var s := FirstFit(fits, start, minSize);
    forall k | minSize <= k <= start ensures (k % 2 == start % 2) == ((start - k) % 2 == 0) {
      SameParity(k, start);
    }
  }

  lemma SameParity(a: int, b: int)
    ensures (a % 2 == b % 2) == ((b - a) % 2 == 0)
  {
  }
}
