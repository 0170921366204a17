/** Selection geometry of the streamed-dock content script: the drag rectangle and
    its minimum size (`handleMouseMove`, `handleMouseUp`), the rotation and scale
    information of the displayed image (`getImageTransformInfo`), and the mapping
    of a selected rectangle back to the pixels of the original image
    (`convertRegionToOriginalImageCoordinates`) for the four right-angle
    rotations, with its clamp to the image.

    Coordinates are exact reals; rotation angles are whole degrees. */
module Geometry {
  import opened Wrappers

  datatype Rect = Rect(x: real, y: real, width: real, height: real)

  /** JavaScript `%` for a positive divisor: the remainder takes the dividend's sign. */
  function JsRem(a: int, b: int): (r: int)
    requires b > 0
    ensures -b < r < b
    ensures a >= 0 ==> r >= 0
  {
    if a >= 0 then a % b else -((-a) % b)
  }

  /** `((rotation % 360) + 360) % 360`. */
  function NormalizeRotation(rotation: int): (n: int)
    ensures 0 <= n < 360
  {
    JsRem(JsRem(rotation, 360) + 360, 360)
  }

  /** The double remainder is the mathematical residue: every angle lands on its
      representative in [0, 360), negative angles included. */
  lemma {:induction false} NormalizeRotationResidue(rotation: int)
    ensures NormalizeRotation(rotation) == rotation % 360
  {
    var r1 := JsRem(rotation, 360);
    assert (r1 - rotation) % 360 == 0 by {
      if rotation < 0 {
        var q := (-rotation) / 360;
        assert -rotation == 360 * q + (-rotation) % 360;
        assert r1 - rotation == 360 * q;
      } else {
        assert rotation == 360 * (rotation / 360) + r1;
      }
    }
    var s := r1 + 360;
    assert 0 < s < 720;
    var k := (r1 - rotation) / 360;
    assert r1 == rotation + 360 * k;
    assert s == rotation + 360 * (k + 1);
    ResidueShift(rotation, k + 1);
  }

  lemma {:induction false} ResidueShift(a: int, k: int)
    ensures (a + 360 * k) % 360 == a % 360
  {
  }

  /** The part of `getImageTransformInfo`'s result used below. */
  datatype Transform = Transform(
    naturalWidth: real, naturalHeight: real, displayWidth: real, displayHeight: real,
    scaleX: real, scaleY: real, rotation: int, quarter: bool, offsetX: real, offsetY: real)

  /** `getImageTransformInfo` once the rotation and the element rectangles are
      known: the rotation is normalised and, for a quarter turn, each display side
      is scaled to the other natural side. */
  function TransformInfo(nW: real, nH: real, dW: real, dH: real, rawRotation: int, offsetX: real, offsetY: real)
    : (t: Transform)
    requires dW > 0.0 && dH > 0.0
    ensures 0 <= t.rotation < 360
    ensures t.quarter <==> t.rotation == 90 || t.rotation == 270
    ensures t.quarter ==> t.scaleX * dW == nH && t.scaleY * dH == nW
    ensures !t.quarter ==> t.scaleX * dW == nW && t.scaleY * dH == nH
    ensures t.naturalWidth == nW && t.naturalHeight == nH && t.displayWidth == dW && t.displayHeight == dH
  {
    var rotation := NormalizeRotation(rawRotation);
    var quarter := rotation == 90 || rotation == 270;
    var sx := if quarter then nH / dW else nW / dW;
    var sy := if quarter then nW / dH else nH / dH;
    Transform(nW, nH, dW, dH, sx, sy, rotation, quarter, offsetX, offsetY)
  }

  /** The quarter-turn test depends on the angle only up to whole turns. */
  lemma {:induction false} QuarterTurnPeriodic(nW: real, nH: real, dW: real, dH: real, rotation: int, k: int, offsetX: real, offsetY: real)
    requires dW > 0.0 && dH > 0.0
    ensures TransformInfo(nW, nH, dW, dH, rotation + 360 * k, offsetX, offsetY)
         == TransformInfo(nW, nH, dW, dH, rotation, offsetX, offsetY)
  {
    NormalizeRotationResidue(rotation + 360 * k);
    NormalizeRotationResidue(rotation);
    ResidueShift(rotation, k);
  }

  /** Right-angle rotations, the cases the conversion handles without trigonometry. */
  predicate RightAngle(t: Transform) {
    t.rotation == 0 || t.rotation == 90 || t.rotation == 180 || t.rotation == 270
  }

  /** `convertRegionToOriginalImageCoordinates` up to its clamp, for a right angle.
      The region is first made relative to the displayed image; the 90 and 270
      degree cases rotate the centre offset back and exchange the extents. */
  function Convert(region: Rect, t: Transform): (r: Rect)
    requires RightAngle(t)
    ensures t.rotation == 0 || t.rotation == 180 ==>
      r.width == region.width * t.scaleX && r.height == region.height * t.scaleY
    ensures t.rotation == 90 || t.rotation == 270 ==>
      r.width == region.height * t.scaleX && r.height == region.width * t.scaleY
  {
    var rx := region.x - t.offsetX;
    var ry := region.y - t.offsetY;
    var dx := rx + region.width / 2.0 - t.displayWidth / 2.0;
    var dy := ry + region.height / 2.0 - t.displayHeight / 2.0;
    if t.rotation == 0 then
      Rect(rx * t.scaleX, ry * t.scaleY, region.width * t.scaleX, region.height * t.scaleY)
    else if t.rotation == 90 then
      var cx := t.naturalWidth / 2.0 + dy * t.scaleX;
      var cy := t.naturalHeight / 2.0 - dx * t.scaleY;
      Rect(cx - region.height * t.scaleX / 2.0, cy - region.width * t.scaleY / 2.0,
           region.height * t.scaleX, region.width * t.scaleY)
    else if t.rotation == 180 then
      var cx := t.naturalWidth / 2.0 - dx * t.scaleX;
      var cy := t.naturalHeight / 2.0 - dy * t.scaleY;
      Rect(cx - region.width * t.scaleX / 2.0, cy - region.height * t.scaleY / 2.0,
           region.width * t.scaleX, region.height * t.scaleY)
    else
      var cx := t.naturalWidth / 2.0 - dy * t.scaleX;
      var cy := t.naturalHeight / 2.0 + dx * t.scaleY;
      Rect(cx - region.height * t.scaleX / 2.0, cy - region.width * t.scaleY / 2.0,
           region.height * t.scaleX, region.width * t.scaleY)
  }

  /** The centre of a rectangle, per axis. */
  function CentreX(r: Rect): real { r.x + r.width / 2.0 }
  function CentreY(r: Rect): real { r.y + r.height / 2.0 }

  /** Without rotation the rectangle is the viewer-relative one scaled per axis. */
  lemma {:induction false} ConvertUnrotated(region: Rect, t: Transform)
    requires t.rotation == 0
    ensures Convert(region, t) == Rect((region.x - t.offsetX) * t.scaleX, (region.y - t.offsetY) * t.scaleY,
                                       region.width * t.scaleX, region.height * t.scaleY)
  {
  }

  /** A quarter turn exchanges the extents, width scaled by `scaleX` and height by
      `scaleY`, and centres the result on the offset from the display centre turned
      back by a quarter: 90 degrees maps (dx, dy) to (dy, -dx), 270 to (-dy, dx). */
  lemma {:induction false} ConvertQuarter(region: Rect, t: Transform)
    requires t.rotation == 90 || t.rotation == 270
    ensures Convert(region, t).width == region.height * t.scaleX
    ensures Convert(region, t).height == region.width * t.scaleY
    ensures var dx := CentreX(region) - t.offsetX - t.displayWidth / 2.0;
      var dy := CentreY(region) - t.offsetY - t.displayHeight / 2.0;
      var c := Convert(region, t);
      if t.rotation == 90 then
        CentreX(c) - t.naturalWidth / 2.0 == dy * t.scaleX && CentreY(c) - t.naturalHeight / 2.0 == -dx * t.scaleY
      else
        CentreX(c) - t.naturalWidth / 2.0 == -dy * t.scaleX && CentreY(c) - t.naturalHeight / 2.0 == dx * t.scaleY
  {
    var dx := region.x - t.offsetX + region.width / 2.0 - t.displayWidth / 2.0;
    var dy := region.y - t.offsetY + region.height / 2.0 - t.displayHeight / 2.0;
    var w, h := region.height * t.scaleX, region.width * t.scaleY;
    if t.rotation == 90 {
      var cx, cy := t.naturalWidth / 2.0 + dy * t.scaleX, t.naturalHeight / 2.0 - dx * t.scaleY;
      assert Convert(region, t) == Rect(cx - w / 2.0, cy - h / 2.0, w, h);
    } else {
      var cx, cy := t.naturalWidth / 2.0 - dy * t.scaleX, t.naturalHeight / 2.0 + dx * t.scaleY;
      assert Convert(region, t) == Rect(cx - w / 2.0, cy - h / 2.0, w, h);
    }
  }

  /** A half turn keeps the extents and negates both centre offsets. */
  lemma {:induction false} ConvertHalfTurn(region: Rect, t: Transform)
    requires t.rotation == 180
    ensures Convert(region, t).width == region.width * t.scaleX
    ensures Convert(region, t).height == region.height * t.scaleY
    ensures var dx := CentreX(region) - t.offsetX - t.displayWidth / 2.0;
      var dy := CentreY(region) - t.offsetY - t.displayHeight / 2.0;
      CentreX(Convert(region, t)) - t.naturalWidth / 2.0 == -dx * t.scaleX
      && CentreY(Convert(region, t)) - t.naturalHeight / 2.0 == -dy * t.scaleY
  {
  }

  /** The half turn is the unrotated result reflected through the image centre,
      once the scales map the display onto the image as `TransformInfo` sets them. */
  lemma {:induction false} HalfTurnReflectsUnrotated(region: Rect, t: Transform)
    requires t.rotation == 180
    requires t.scaleX * t.displayWidth == t.naturalWidth && t.scaleY * t.displayHeight == t.naturalHeight
    ensures var straight := Convert(region, t.(rotation := 0));
      var turned := Convert(region, t);
      turned.x == t.naturalWidth - (straight.x + straight.width)
      && turned.y == t.naturalHeight - (straight.y + straight.height)
      && turned.width == straight.width && turned.height == straight.height
  {
    var rx := region.x - t.offsetX;
    var dx := rx + region.width / 2.0 - t.displayWidth / 2.0;
    assert dx * t.scaleX == rx * t.scaleX + region.width * t.scaleX / 2.0 - t.naturalWidth / 2.0;
    var ry := region.y - t.offsetY;
    var dy := ry + region.height / 2.0 - t.displayHeight / 2.0;
    assert dy * t.scaleY == ry * t.scaleY + region.height * t.scaleY / 2.0 - t.naturalHeight / 2.0;
  }

  /** The 270-degree result is the 90-degree one reflected through the image centre. */
  lemma {:induction false} QuarterTurnsReflect(region: Rect, t: Transform)
    requires t.rotation == 90
    ensures var a := Convert(region, t);
      var b := Convert(region, t.(rotation := 270));
      a.x + b.x + a.width == t.naturalWidth && a.y + b.y + a.height == t.naturalHeight
      && a.width == b.width && a.height == b.height
  {
  }

  /** The selection of the whole unrotated display maps onto the whole image. */
  lemma {:induction false} WholeDisplayWholeImage(t: Transform)
    requires t.rotation == 0
    requires t.scaleX * t.displayWidth == t.naturalWidth && t.scaleY * t.displayHeight == t.naturalHeight
    ensures Convert(Rect(t.offsetX, t.offsetY, t.displayWidth, t.displayHeight), t)
         == Rect(0.0, 0.0, t.naturalWidth, t.naturalHeight)
  {
  }

  function Min(a: real, b: real): real { if a <= b then a else b }
  function Max(a: real, b: real): real { if a >= b then a else b }

  /** The boundary adjustment, before rounding: the corner is pulled inside the
      image, then the extents are cut at its far edges. */
  function ClampToImage(r: Rect, nW: real, nH: real): (c: Rect)
    requires nW >= 0.0 && nH >= 0.0
    ensures c.x >= 0.0 && c.y >= 0.0
    ensures c.x + c.width <= nW && c.y + c.height <= nH
    ensures c.width <= r.width && c.height <= r.height
    ensures 0.0 <= r.x && r.x + r.width <= nW ==> c.x == r.x && c.width == r.width
    ensures 0.0 <= r.y && r.y + r.height <= nH ==> c.y == r.y && c.height == r.height
  {
    var x := Max(0.0, Min(r.x, nW - r.width));
    var y := Max(0.0, Min(r.y, nH - r.height));
    Rect(x, y, Min(r.width, nW - x), Min(r.height, nH - y))
  }

  /** A rectangle with non-negative extents keeps them non-negative under the clamp
      as long as its corner is inside the image. */
  lemma {:induction false} ClampKeepsExtentsNonNegative(r: Rect, nW: real, nH: real)
    requires nW >= 0.0 && nH >= 0.0 && r.width >= 0.0 && r.height >= 0.0
    ensures ClampToImage(r, nW, nH).width >= 0.0 && ClampToImage(r, nW, nH).height >= 0.0
  {
  }

  /** `Math.round`. */
  function Round(x: real): (n: int)
    ensures x - 0.5 < n as real <= x + 0.5
  {
    (x + 0.5).Floor
  }

  datatype Pixels = Pixels(x: int, y: int, width: int, height: int)

  /** The final rounding as written: each of the four numbers is rounded on its own. */
  function RoundEachAsWritten(c: Rect): Pixels {
    Pixels(Round(c.x), Round(c.y), Round(c.width), Round(c.height))
  }

  /** Rounding each number on its own can push the right edge one pixel past the
      image: a clamped x of 10.5 and width of 89.5 in a 100-pixel image round to 11
      and 90. */
  lemma {:induction false} RoundingBreaksClamp()
    ensures var c := ClampToImage(Rect(10.5, 0.0, 89.5, 10.0), 100.0, 10.0);
      c == Rect(10.5, 0.0, 89.5, 10.0)
      && RoundEachAsWritten(c).x + RoundEachAsWritten(c).width == 101
  {
    assert Round(10.5) == 11;
    assert Round(89.5) == 90;
  }

  /** Rounding that keeps the clamp: the corner is rounded and the extents are cut
      to the whole pixels left on the image. */
  function RoundInside(c: Rect, nW: int, nH: int): (p: Pixels)
    requires nW >= 0 && nH >= 0 && c.x >= 0.0 && c.y >= 0.0
    requires c.x + c.width <= nW as real && c.y + c.height <= nH as real
    ensures 0 <= p.x && 0 <= p.y && p.x + p.width <= nW && p.y + p.height <= nH
    ensures p.width <= Round(c.width) && p.height <= Round(c.height)
    ensures Round(c.x) + Round(c.width) <= nW && Round(c.y) + Round(c.height) <= nH ==> p == RoundEachAsWritten(c)
  {
    var x := Round(c.x);
    var y := Round(c.y);
    var w := Round(c.width);
    var h := Round(c.height);
    Pixels(x, y, if x + w <= nW then w else nW - x, if y + h <= nH then h else nH - y)
  }

  /** The corrected rounding differs from the original by at most one pixel in
      each extent. */
  lemma {:induction false} RoundInsideAtMostOnePixel(c: Rect, nW: int, nH: int)
    requires nW >= 0 && nH >= 0 && c.x >= 0.0 && c.y >= 0.0
    requires c.x + c.width <= nW as real && c.y + c.height <= nH as real
    ensures RoundEachAsWritten(c).width - RoundInside(c, nW, nH).width <= 1
    ensures RoundEachAsWritten(c).height - RoundInside(c, nW, nH).height <= 1
  {
  }

  // ---------------------------------------------------------------- drag selection

  /** The selection box while dragging from (startX, startY) to (curX, curY). */
  function DragBox(startX: real, startY: real, curX: real, curY: real): (b: Rect)
    ensures b.x == Min(startX, curX) && b.y == Min(startY, curY)
    ensures b.width >= 0.0 && b.height >= 0.0
    ensures b.x + b.width == Max(startX, curX) && b.y + b.height == Max(startY, curY)
  {
    var w := curX - startX;
    var h := curY - startY;
    Rect(if w > 0.0 then startX else curX, if h > 0.0 then startY else curY,
         if w >= 0.0 then w else -w, if h >= 0.0 then h else -h)
  }

  /** `parseInt` of a CSS pixel length: the integer part, truncated toward zero. */
  function ParseIntPx(v: real): int {
    if v >= 0.0 then v.Floor else -((-v).Floor)
  }

  /** The minimum size in pixels of an accepted selection. */
  const MinSelection: int := 10

  /** `handleMouseUp`: the selection read back from the box's style, or `None` when
      it is narrower or shorter than ten pixels and selection ends. */
  function MouseUp(b: Rect): (r: Option<Pixels>)
    requires b.width >= 0.0 && b.height >= 0.0
    ensures r.Some? <==> b.width >= MinSelection as real && b.height >= MinSelection as real
    ensures r.Some? ==> r.value.width >= MinSelection && r.value.height >= MinSelection
  {
    var w := ParseIntPx(b.width);
    var h := ParseIntPx(b.height);
    if w < MinSelection || h < MinSelection then None
    else Some(Pixels(ParseIntPx(b.x), ParseIntPx(b.y), w, h))
  }

  /** A drag is accepted exactly when it moved at least ten pixels along both axes. */
  lemma {:induction false} DragAccepted(startX: real, startY: real, curX: real, curY: real)
    ensures MouseUp(DragBox(startX, startY, curX, curY)).Some? <==>
      (curX - startX >= 10.0 || startX - curX >= 10.0) && (curY - startY >= 10.0 || startY - curY >= 10.0)
  {
  }

}
