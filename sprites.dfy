/** Bitmap sprites of `src/image.rs`: images as rows of `u32` bits, their bounding boxes,
    pixel-exact collision between two positioned sprites, and the projection of a sprite onto
    the canvas with clipping, together with the pixels that projection paints. */
module Sprites {

  import opened Wrappers
  import opened Geometry
  import opened Bits

  type u32 = x: int | 0 <= x < 0x1_0000_0000

  /** `ratatui::style::Color`, reduced to the colors the sprite tables use. */
  datatype Color = Red | Green | LightBlue

  /** `Image`: bit i of a row is column i. */
  datatype Image = Image(pixels: seq<u32>, width: u16, color: Color) {

    /** `Image::width`: the declared width, at most the 32 columns of a row. */
    function Width(): (w: u16)
      ensures Valid() ==> w <= 32
    {
      width
    }

    /** `Image::height`: the row count, cast to `u16`. */
    function Height(): (h: u16)
      ensures |pixels| < 0x1_0000 ==> h == |pixels|
    {
      |pixels| % 0x1_0000
    }

    /** A row is one `u32`, so an image is at most 32 columns wide, and its row count fits the
        `u16` that `height` returns. */
    predicate Valid() {
      width <= 32 && |pixels| < 0x1_0000
    }

    /** No row has a bit set at or beyond the declared width. */
    predicate RowsFit() {
      forall i :: 0 <= i < |pixels| ==> pixels[i] < Pow2(width)
    }

    /** The bit of column c in row r. */
    predicate Pixel(c: int, r: int) {
      0 <= r < |pixels| && 0 <= c && Bit(pixels[r], c)
    }
  }

  /** `ImageAnimation`: the frames of an animation, shown in a cycle. */
  datatype Animation = Animation(images: seq<Image>) {

    /** `ImageAnimation::image`: frame n is image n mod len; an empty animation would divide by
        zero. */
    function Image(frame: nat): (r: Image)
      requires |images| > 0
      ensures r in images
      ensures r == images[frame % |images|]
    {
      images[frame % |images|]
    }
  }

  /** The animation repeats with period `len`. */
  lemma AnimationCycles(a: Animation, frame: nat)
    requires |a.images| > 0
    ensures a.Image(frame + |a.images|) == a.Image(frame)
  {
    Bits.DivModOfDecomposition(frame + |a.images|, |a.images|, frame / |a.images| + 1, frame % |a.images|);
  }

  /** Which edge of the bounding box the anchor position is. */
  datatype Origin = Min | Max

  /** The part of a line that lands in a window of the given size: the image cells to skip at
      the start, and the window range that is covered. */
  datatype Clip = Clip(imageOffset: u16, position: Line)

  /** `as u16` of a non-negative `i32`: the low 16 bits. */
  function AsU16(x: nat): u16 {
    x % 0x1_0000
  }

  /** `Clip::new`: None when the range lies entirely before 0 or at/after the window end;
      otherwise the covered part is the range cut to [0, window) and the image offset counts
      the cells cut at the start. */
  function ClipNew(windowSize: u16, range: Line): (r: Option<Clip>)
    ensures r.None? <==> range.end <= 0 || windowSize <= range.start
    ensures r.Some? ==> 0 <= r.value.position.start && r.value.position.end <= windowSize
    ensures r.Some? ==> forall k :: r.value.position.Contains(k) <==> range.Contains(k) && 0 <= k < windowSize
    ensures r.Some? && range.start > -0x1_0000 ==>
              r.value.imageOffset == Geometry.Max(-range.start, 0) &&
              r.value.position.start == range.start + r.value.imageOffset
  {
    if range.end <= 0 || windowSize <= range.start then None
    else
      Some(Clip(
        AsU16(Geometry.Max(-range.start, 0)),
        Line(AsU16(Geometry.Max(range.start, 0)), AsU16(Geometry.Min(range.end, windowSize)))))
  }

  /** `SpriteRect`: the visible window part of a sprite and where in the image it starts. */
  datatype SpriteRect = SpriteRect(image: Image, imageOffset: Pos<u16>, rect: Rect) {

    /** What `draw` needs so that it neither shifts a `u32` by 32 or more nor reads past the
        last row. */
    predicate Drawable() {
      rect.y.start < rect.y.end ==>
        imageOffset.x < 32 && imageOffset.y + (rect.y.end - rect.y.start) <= |image.pixels|
    }

    /** Point p of the window is painted: it is inside `rect` and the image bit it maps to,
        column `image_offset.x + (x - rect.x.start)` of row `image_offset.y + (y - rect.y.start)`,
        is set. */
    ghost predicate Paints(p: (int, int)) {
      rect.x.Contains(p.0) && rect.y.Contains(p.1) &&
      image.Pixel(imageOffset.x + (p.0 - rect.x.start), imageOffset.y + (p.1 - rect.y.start))
    }

    /** `SpriteRect::draw`, with the painter replaced by the set of points it is asked to paint
        (all in `image.color`). */
    method Draw() returns (painted: set<(int, int)>)
      requires Drawable()
      ensures forall p :: p in painted <==> Paints(p)
    {
      painted := {};
      var imageY := imageOffset.y;
      var y := rect.y.start;
      while y < rect.y.end
        invariant y == rect.y.start || rect.y.start <= y <= rect.y.end
        invariant imageY == imageOffset.y + (y - rect.y.start)
        invariant forall p :: p in painted <==> Paints(p) && p.1 < y
      {
        var bitmap := Shr(image.pixels[imageY], imageOffset.x);
        var x := rect.x.start;
        while x < rect.x.end
          invariant x == rect.x.start || rect.x.start <= x <= rect.x.end
          invariant bitmap == Shr(image.pixels[imageY], imageOffset.x + (x - rect.x.start))
          invariant forall p :: p in painted <==> Paints(p) && (p.1 < y || (p.1 == y && p.0 < x))
        {
          AndOne(bitmap);
          if And(bitmap, 1) == 1 {
            painted := painted + {(x, y)};
          }
          ShrShr(image.pixels[imageY], imageOffset.x + (x - rect.x.start), 1);
          bitmap := Shr(bitmap, 1);
          x := x + 1;
        }
        imageY := imageY + 1;
        y := y + 1;
      }
    }
  }

  /** `Sprite`: an image anchored at a position, with an origin per axis. */
  datatype Sprite = Sprite(image: Image, position: Pos<int>, origin: Pos<Origin>) {

    /** `Sprite::bounding_box`: a Min origin starts the box at the anchor, a Max origin ends it
        just past the anchor; either way the box is the image's width by its height. */
    function BoundingBox(): (r: Rect)
      ensures r.x.Size() == image.Width() && r.y.Size() == image.Height()
      ensures origin.x == Min ==> r.x.start == position.x
      ensures origin.x == Max ==> r.x.end == position.x + 1
      ensures origin.y == Min ==> r.y.start == position.y
      ensures origin.y == Max ==> r.y.end == position.y + 1
    {
      var x, y := position.x, position.y;
      var width := image.Width();
      var height := image.Height();
      Geometry.Rect(
        match origin.x {
          case Min => Line(x, x + width)
          case Max => Line(x - width + 1, x + 1)
        },
        match origin.y {
          case Min => Line(y, y + height)
          case Max => Line(y - height + 1, y + 1)
        })
    }

    /** The column distance between the two boxes' left edges, by which `collide` shifts the
        row that starts further left. When the boxes overlap it is below 32, so the `u32` shift
        cannot overflow. */
    function ShiftTo(other: Sprite): (s: nat)
      ensures (image.Valid() && other.image.Valid() &&
               BoundingBox().Intersect(other.BoundingBox()).Some?) ==> s < 32
    {
      var ax, bx := BoundingBox().x.start, other.BoundingBox().x.start;
      if ax < bx then bx - ax else ax - bx
    }

    /** Row y of both sprites after the alignment shift in `collide` share a set bit. */
    predicate RowsMeet(other: Sprite, y: int)
      requires image.Valid() && other.image.Valid()
      requires BoundingBox().y.Contains(y) && other.BoundingBox().y.Contains(y)
    {
      var boxA, boxB := BoundingBox(), other.BoundingBox();
      var rowA := image.pixels[y - boxA.y.start];
      var rowB := other.image.pixels[y - boxB.y.start];
      if boxA.x.start < boxB.x.start then And(Shr(rowA, ShiftTo(other)), rowB) != 0
      else And(rowA, Shr(rowB, ShiftTo(other))) != 0
    }

    /** What `collide` decides: the boxes intersect and, on some row of the intersection, the
        aligned rows share a set bit. */
    ghost predicate Collides(other: Sprite)
      requires image.Valid() && other.image.Valid()
    {
      var i := BoundingBox().Intersect(other.BoundingBox());
      i.Some? && exists y :: i.value.y.Contains(y) && RowsMeet(other, y)
    }

    /** Global point (gx, gy) is an opaque pixel of this sprite. */
    ghost predicate Opaque(gx: int, gy: int) {
      var box := BoundingBox();
      box.x.Contains(gx) && box.y.Contains(gy) && image.Pixel(gx - box.x.start, gy - box.y.start)
    }

    /** Some global point is an opaque pixel of both sprites. */
    ghost predicate Overlaps(other: Sprite) {
      exists gx, gy :: Opaque(gx, gy) && other.Opaque(gx, gy)
    }

    /** `Sprite::collide`. It is false when the boxes do not intersect; for images whose rows fit
        their widths it is true exactly when some pixel is opaque in both sprites. */
    method Collide(other: Sprite) returns (hit: bool)
      requires image.Valid() && other.image.Valid()
      ensures hit <==> Collides(other)
      ensures BoundingBox().Intersect(other.BoundingBox()).None? ==> !hit
      ensures image.RowsFit() && other.image.RowsFit() ==> (hit <==> Overlaps(other))
    {
      if image.RowsFit() && other.image.RowsFit() {
        CollidesIffOverlaps(this, other);
      }
      var boxA := BoundingBox();
      var boxB := other.BoundingBox();
      var intersection := boxA.Intersect(boxB);
      if intersection.None? {
        return false;
      }
      var rows := intersection.value.y;
      var y := rows.start;
      while y < rows.end
        invariant rows.start <= y <= rows.end
        invariant forall y' :: rows.start <= y' < y ==> !RowsMeet(other, y')
      {
        var rowA: nat := image.pixels[y - boxA.y.start];
        var rowB: nat := other.image.pixels[y - boxB.y.start];
        if boxA.x.start < boxB.x.start {
          rowA := Shr(rowA, boxB.x.start - boxA.x.start);
        } else {
          rowB := Shr(rowB, boxA.x.start - boxB.x.start);
        }
        if And(rowA, rowB) != 0 {
          assert RowsMeet(other, y);
          return true;
        }
        assert !RowsMeet(other, y);
        y := y + 1;
      }
      return false;
    }

    /** Where the image's top-left cell lands on the canvas (`rect` translates the x-range by
        `origin.x` and the y-range by `origin.y - 2 * position.y`). */
    function CanvasCorner(origin: Pos<int>): Pos<int> {
      var box := BoundingBox();
      Pos(box.x.start + origin.x, box.y.start + origin.y - position.y * 2)
    }

    /** Canvas point p shows an opaque pixel of this sprite. Both axes are clipped against
        `canvas_size.width`, as `rect` does. */
    ghost predicate Shows(origin: Pos<int>, canvasSize: Size<u16>, p: (int, int)) {
      var corner := CanvasCorner(origin);
      0 <= p.0 < canvasSize.width && 0 <= p.1 < canvasSize.width &&
      0 <= p.0 - corner.x < image.width && image.Pixel(p.0 - corner.x, p.1 - corner.y)
    }

    /** `Sprite::rect`: clips the translated bounding box on each axis; None when either axis
        is entirely off the canvas. The result can always be drawn, and it paints exactly the
        canvas points that show an opaque pixel of the sprite. */
    function Rect(origin: Pos<int>, canvasSize: Size<u16>): (r: Option<SpriteRect>)
      requires image.Valid()
      ensures var box := BoundingBox(); var dy := origin.y - position.y * 2;
        r.None? <==>
          || box.x.end + origin.x <= 0 || canvasSize.width <= box.x.start + origin.x
          || box.y.end + dy <= 0 || canvasSize.width <= box.y.start + dy
      ensures r.Some? ==> r.value.Drawable() && r.value.image == image
      ensures r.Some? ==> forall p :: r.value.Paints(p) <==> Shows(origin, canvasSize, p)
      ensures r.None? ==> forall p :: !Shows(origin, canvasSize, p)
    {
      var rect := BoundingBox();
      var xClip := ClipNew(canvasSize.width, rect.x.Translate(origin.x));
      var yClip := ClipNew(canvasSize.width, rect.y.Translate(origin.y - position.y * 2));
      RectProjects(this, origin, canvasSize);
      if xClip.None? || yClip.None? then None
      else
        Some(SpriteRect(
          image,
          Pos(xClip.value.imageOffset, yClip.value.imageOffset),
          Geometry.Rect(xClip.value.position, yClip.value.position)))
    }
  }

  /** The facts behind `Sprite::rect`'s contract, stated on the two clips it computes. */
  lemma RectProjects(s: Sprite, origin: Pos<int>, canvasSize: Size<u16>)
    requires s.image.Valid()
    ensures var box := s.BoundingBox();
      var xClip := ClipNew(canvasSize.width, box.x.Translate(origin.x));
      var yClip := ClipNew(canvasSize.width, box.y.Translate(origin.y - s.position.y * 2));
      && (xClip.None? || yClip.None? ==> forall p :: !s.Shows(origin, canvasSize, p))
      && (xClip.Some? && yClip.Some? ==>
            var sr := SpriteRect(s.image, Pos(xClip.value.imageOffset, yClip.value.imageOffset),
                                 Geometry.Rect(xClip.value.position, yClip.value.position));
            sr.Drawable() && forall p :: sr.Paints(p) <==> s.Shows(origin, canvasSize, p))
  {
    var box := s.BoundingBox();
    var tx, ty := box.x.Translate(origin.x), box.y.Translate(origin.y - s.position.y * 2);
    var xClip := ClipNew(canvasSize.width, tx);
    var yClip := ClipNew(canvasSize.width, ty);
    var corner := s.CanvasCorner(origin);
    assert tx.start == corner.x && ty.start == corner.y;
    assert tx.end == corner.x + s.image.width && ty.end == corner.y + |s.image.pixels|;
    if xClip.None? || yClip.None? {
      forall p ensures !s.Shows(origin, canvasSize, p) {
      }
    } else {
      var sr := SpriteRect(s.image, Pos(xClip.value.imageOffset, yClip.value.imageOffset),
                           Geometry.Rect(xClip.value.position, yClip.value.position));
      forall p ensures sr.Paints(p) <==> s.Shows(origin, canvasSize, p) {
        assert sr.rect.x.Contains(p.0) <==> tx.Contains(p.0) && 0 <= p.0 < canvasSize.width;
        assert sr.rect.y.Contains(p.1) <==> ty.Contains(p.1) && 0 <= p.1 < canvasSize.width;
      }
    }
  }

  /** Row y of both sprites meets after alignment exactly when some column of that row is opaque
      in both, provided every row fits its image's width. */
  lemma RowsMeetIffCommonPixel(a: Sprite, b: Sprite, y: int)
    requires a.image.Valid() && b.image.Valid() && a.image.RowsFit() && b.image.RowsFit()
    requires a.BoundingBox().y.Contains(y) && b.BoundingBox().y.Contains(y)
    ensures a.RowsMeet(b, y) <==> exists gx :: a.Opaque(gx, y) && b.Opaque(gx, y)
  {
    var first := a.BoundingBox().x.start < b.BoundingBox().x.start;
    if a.RowsMeet(b, y) {
      if first { MeetShiftingFirst(a, b, y); } else { MeetShiftingSecond(a, b, y); }
    }
    if gx :| a.Opaque(gx, y) && b.Opaque(gx, y) {
      if first { PixelShiftingFirst(a, b, y, gx); } else { PixelShiftingSecond(a, b, y, gx); }
    }
  }

  /** When the first box starts further left its row is shifted, and a common bit c of the
      aligned rows is the common opaque column `b.x.start + c`. */
  lemma MeetShiftingFirst(a: Sprite, b: Sprite, y: int)
    requires a.image.Valid() && b.image.Valid() && a.image.RowsFit() && b.image.RowsFit()
    requires a.BoundingBox().y.Contains(y) && b.BoundingBox().y.Contains(y)
    requires a.BoundingBox().x.start < b.BoundingBox().x.start
    requires a.RowsMeet(b, y)
    ensures exists gx :: a.Opaque(gx, y) && b.Opaque(gx, y)
  {
    var boxA, boxB := a.BoundingBox(), b.BoundingBox();
    var rowA := a.image.pixels[y - boxA.y.start];
    var rowB := b.image.pixels[y - boxB.y.start];
    var s := a.ShiftTo(b);
    AndShrCommonBit(rowA, rowB, s, a.image.width, b.image.width);
    var c: nat :| c < b.image.width && s + c < a.image.width && Bit(rowA, s + c) && Bit(rowB, c);
    assert a.Opaque(boxB.x.start + c, y) && b.Opaque(boxB.x.start + c, y);
  }

  /** Conversely, a common opaque column gx of the row is bit `gx - b.x.start` of both aligned
      rows when the first box starts further left. */
  lemma PixelShiftingFirst(a: Sprite, b: Sprite, y: int, gx: int)
    requires a.image.Valid() && b.image.Valid()
    requires a.BoundingBox().y.Contains(y) && b.BoundingBox().y.Contains(y)
    requires a.BoundingBox().x.start < b.BoundingBox().x.start
    requires a.Opaque(gx, y) && b.Opaque(gx, y)
    ensures a.RowsMeet(b, y)
  {
    var boxA, boxB := a.BoundingBox(), b.BoundingBox();
    var rowA := a.image.pixels[y - boxA.y.start];
    var rowB := b.image.pixels[y - boxB.y.start];
    var s := a.ShiftTo(b);
    var c: nat := gx - boxB.x.start;
    assert s + c == gx - boxA.x.start;
    AndShrFromCommonBit(rowA, rowB, s, c);
  }

  /** When the second box starts at or left of the first its row is shifted, and a common bit c
      of the aligned rows is the common opaque column `a.x.start + c`. */
  lemma MeetShiftingSecond(a: Sprite, b: Sprite, y: int)
    requires a.image.Valid() && b.image.Valid() && a.image.RowsFit() && b.image.RowsFit()
    requires a.BoundingBox().y.Contains(y) && b.BoundingBox().y.Contains(y)
    requires a.BoundingBox().x.start >= b.BoundingBox().x.start
    requires a.RowsMeet(b, y)
    ensures exists gx :: a.Opaque(gx, y) && b.Opaque(gx, y)
  {
    var boxA, boxB := a.BoundingBox(), b.BoundingBox();
    var rowA := a.image.pixels[y - boxA.y.start];
    var rowB := b.image.pixels[y - boxB.y.start];
    var s := a.ShiftTo(b);
    AndCommutes(rowA, Shr(rowB, s));
    AndShrCommonBit(rowB, rowA, s, b.image.width, a.image.width);
    var c: nat :| c < a.image.width && s + c < b.image.width && Bit(rowB, s + c) && Bit(rowA, c);
    assert a.Opaque(boxA.x.start + c, y) && b.Opaque(boxA.x.start + c, y);
  }

  /** Conversely, a common opaque column gx of the row is bit `gx - a.x.start` of both aligned
      rows when the second box starts at or left of the first. */
  lemma PixelShiftingSecond(a: Sprite, b: Sprite, y: int, gx: int)
    requires a.image.Valid() && b.image.Valid()
    requires a.BoundingBox().y.Contains(y) && b.BoundingBox().y.Contains(y)
    requires a.BoundingBox().x.start >= b.BoundingBox().x.start
    requires a.Opaque(gx, y) && b.Opaque(gx, y)
    ensures a.RowsMeet(b, y)
  {
    var boxA, boxB := a.BoundingBox(), b.BoundingBox();
    var rowA := a.image.pixels[y - boxA.y.start];
    var rowB := b.image.pixels[y - boxB.y.start];
    var s := a.ShiftTo(b);
    var c: nat := gx - boxA.x.start;
    assert s + c == gx - boxB.x.start;
    AndShrFromCommonBit(rowB, rowA, s, c);
    AndCommutes(rowA, Shr(rowB, s));
  }

  /** For images whose rows fit their widths, `collide` is exact pixel overlap. */
  lemma CollidesIffOverlaps(a: Sprite, b: Sprite)
    requires a.image.Valid() && b.image.Valid() && a.image.RowsFit() && b.image.RowsFit()
    ensures a.Collides(b) <==> a.Overlaps(b)
  {
    var i := a.BoundingBox().Intersect(b.BoundingBox());
    if a.Collides(b) {
      var y :| i.value.y.Contains(y) && a.RowsMeet(b, y);
      RowsMeetIffCommonPixel(a, b, y);
    }
    if a.Overlaps(b) {
      var gx, gy :| a.Opaque(gx, gy) && b.Opaque(gx, gy);
      assert a.BoundingBox().x.Intersect(b.BoundingBox().x).Some?;
      assert a.BoundingBox().y.Intersect(b.BoundingBox().y).Some?;
      RowsMeetIffCommonPixel(a, b, gy);
      assert i.value.y.Contains(gy);
    }
  }

  /** `collide` does not depend on the order of its arguments. */
  lemma CollidesSymmetric(a: Sprite, b: Sprite)
    requires a.image.Valid() && b.image.Valid()
    ensures a.Collides(b) <==> b.Collides(a)
  {
    IntersectCommutes(a.BoundingBox().x, b.BoundingBox().x);
    IntersectCommutes(a.BoundingBox().y, b.BoundingBox().y);
    var i := a.BoundingBox().Intersect(b.BoundingBox());
    if i.Some? {
      forall y | i.value.y.Contains(y) ensures a.RowsMeet(b, y) <==> b.RowsMeet(a, y) {
        var boxA, boxB := a.BoundingBox(), b.BoundingBox();
        var rowA := a.image.pixels[y - boxA.y.start];
        var rowB := b.image.pixels[y - boxB.y.start];
        AndCommutes(Shr(rowA, a.ShiftTo(b)), rowB);
        AndCommutes(rowA, Shr(rowB, a.ShiftTo(b)));
        AndCommutes(rowA, rowB);
      }
    }
  }
}
