/** Coordinate transforms of the calibration window (`VideoSetter.convertCords`
    and `VideoSetter.showedCords`): between the clicked / drawn position on the
    screen and the position in the first frame of the video. */
module Geometry {
  import opened Outcomes

  datatype Point = Point(x: int, y: int) {
    function Plus(q: Point): Point { Point(x + q.x, y + q.y) }
    function Minus(q: Point): Point { Point(x - q.x, y - q.y) }
  }

  /** `originalSize`: width and height of the first frame, the pivot of the rotation table. */
  datatype Size = Size(width: nat, height: nat)

  /** The display scale `scaleF` as an exact fraction num / den. */
  datatype Ratio = Ratio(num: int, den: int)
  type Scale = r: Ratio | r.num > 0 && r.den > 0 witness Ratio(1, 1)

  const UnitScale: Scale := Ratio(1, 1)

  /** One corner of a crop rectangle: Python's empty tuple `()` until a press sets it. */
  datatype Corner = Unset | At(p: Point)

  /** One entry of `cropping`: the pair (corner A, corner B) captured by press and release. */
  datatype Crop = Crop(first: Corner, second: Corner)

  const NoCorners := Crop(Unset, Unset)

  /** The fields `convertCords` and `showedCords` read. */
  datatype View = View(rotate: int, scale: Scale, originalSize: Size, cropping: seq<Crop>)

  function Abs(n: int): nat { if n < 0 then -n else n }

  /** Python's `round(a / b)` on exact rationals: nearest integer, ties to even. */
  function RoundDiv(a: int, b: int): (r: int)
    requires b > 0
    ensures -b <= 2 * (a - r * b) <= b
    ensures Abs(2 * (a - r * b)) == b ==> r % 2 == 0
  {
    var q, m := a / b, a % b;
    assert a - q * b == m;
    assert a - (q + 1) * b == m - b;
    if 2 * m < b then q
    else if 2 * m > b then q + 1
    else if q % 2 == 0 then q
    else q + 1
  }

  /** An integer e with |2 e b| <= b is zero. */
  lemma ZeroFromHalfBound(e: int, b: int)
    requires b > 0 && -b <= 2 * (e * b) <= b
    ensures e == 0
  {
  }

  /** An integer e with |e| d <= d, for d > 0, is at most 1 in magnitude. */
  lemma AtMostOneFromBound(e: nat, d: int)
    requires d > 0 && 2 * d * e <= 2 * d
    ensures e <= 1
  {
  }

  /** Two roundings in a row, first by n / d then by d / n, stay within
      (n + d) / (2 d) of the starting value. */
  lemma RoundingChain(x: int, a: int, b: int, n: int, d: int)
    requires n > 0 && d > 0
    requires -n <= 2 * (x * d - a * n) <= n
    requires -d <= 2 * (a * n - b * d) <= d
    ensures 2 * d * Abs(b - x) <= n + d
  {
    assert x * d - b * d == (x - b) * d;
    assert -(n + d) <= 2 * ((x - b) * d) <= n + d;
    if b >= x {
      assert 2 * d * Abs(b - x) == -(2 * ((x - b) * d));
    } else {
      assert 2 * d * Abs(b - x) == 2 * ((x - b) * d);
    }
  }

  /** Rounding an exact multiple gives the multiplier back. */
  lemma RoundDivOfMultiple(a: int, b: int)
    requires b > 0
    ensures RoundDiv(a * b, b) == a
  {
    var r := RoundDiv(a * b, b);
    assert a * b - r * b == (a - r) * b;
    ZeroFromHalfBound(a - r, b);
  }

  /** `round(pos / scaleF)`, applied to both coordinates (undoes the display
      scale): each coordinate is the nearest integer to p / s. */
  function ScaleDown(s: Scale, p: Point): (r: Point)
    ensures -s.num <= 2 * (p.x * s.den - r.x * s.num) <= s.num
    ensures -s.num <= 2 * (p.y * s.den - r.y * s.num) <= s.num
  {
    Point(RoundDiv(p.x * s.den, s.num), RoundDiv(p.y * s.den, s.num))
  }

  /** `round(pos * scaleF)`, applied to both coordinates: each coordinate is
      the nearest integer to p * s. */
  function ScaleUp(s: Scale, p: Point): (r: Point)
    ensures -s.den <= 2 * (p.x * s.num - r.x * s.den) <= s.den
    ensures -s.den <= 2 * (p.y * s.num - r.y * s.den) <= s.den
  {
    Point(RoundDiv(p.x * s.num, s.den), RoundDiv(p.y * s.num, s.den))
  }

  /** Every crop has its first corner set, so `crop[0][0]` does not raise. */
  predicate WellFormed(cropping: seq<Crop>) {
    forall i :: 0 <= i < |cropping| ==> cropping[i].first.At?
  }

  /** The sum of the first corners of all crops, in list order: the offset
      that both transforms apply; indexing an unset corner raises IndexError. */
  function CropOffset(cropping: seq<Crop>): (r: Result<Point>)
    ensures r.Ok? <==> WellFormed(cropping)
    ensures r.Err? ==> r.error == IndexError
  {
    if |cropping| == 0 then Ok(Point(0, 0))
    else
      var init := cropping[..|cropping| - 1];
      assert forall i :: 0 <= i < |init| ==> init[i] == cropping[i];
      var off :- CropOffset(init);
      match cropping[|cropping| - 1].first
      case Unset => Err(IndexError)
      case At(c) => Ok(off.Plus(c))
  }

  /** The rotation table of `convertCords` (screen orientation to source orientation). */
  function Unrotate(rotate: int, size: Size, p: Point): (r: Result<Point>)
    ensures r.Ok? <==> 0 <= rotate < 4
    ensures r.Err? ==> r.error == IndexError
  {
    if rotate == 0 then Ok(p)
    else if rotate == 1 then Ok(Point(size.width - p.y, p.x))
    else if rotate == 2 then Ok(Point(size.width - p.x, size.height - p.y))
    else if rotate == 3 then Ok(Point(p.y, size.height - p.x))
    else Err(IndexError)
  }

  /** The rotation table of `showedCords` (source orientation to screen orientation). */
  function Rotate(rotate: int, size: Size, p: Point): (r: Result<Point>)
    ensures r.Ok? <==> 0 <= rotate < 4
    ensures r.Err? ==> r.error == IndexError
  {
    if rotate == 0 then Ok(p)
    else if rotate == 1 then Ok(Point(p.y, size.width - p.x))
    else if rotate == 2 then Ok(Point(size.width - p.x, size.height - p.y))
    else if rotate == 3 then Ok(Point(size.height - p.y, p.x))
    else Err(IndexError)
  }

  /** Screen position to source-frame position: undo the scale, add every crop's
      first corner, then apply the rotation case. */
  function ConvertCords(v: View, pos: Point): (r: Result<Point>)
    ensures r.Ok? <==> 0 <= v.rotate < 4 && WellFormed(v.cropping)
    ensures r.Err? ==> r.error == IndexError
  {
    var unscaled := ScaleDown(v.scale, pos);
    var off :- CropOffset(v.cropping);
    Unrotate(v.rotate, v.originalSize, unscaled.Plus(off))
  }

  /** Source-frame position to screen position: the rotation case, then subtract
      every crop's first corner, then apply the scale. */
  function ShowedCords(v: View, pos: Point): (r: Result<Point>)
    ensures r.Ok? <==> 0 <= v.rotate < 4 && WellFormed(v.cropping)
    ensures r.Err? ==> r.error == IndexError
  {
    var turned :- Rotate(v.rotate, v.originalSize, pos);
    var off :- CropOffset(v.cropping);
    Ok(ScaleUp(v.scale, turned.Minus(off)))
  }

  /** Each rotation case of `showedCords` exactly undoes the matching case of
      `convertCords`, and the other way round, for a fixed `originalSize`. */
  lemma RotationCasesInverse(rotate: int, size: Size, p: Point)
    requires 0 <= rotate < 4
    ensures Rotate(rotate, size, Unrotate(rotate, size, p).value) == Ok(p)
    ensures Unrotate(rotate, size, Rotate(rotate, size, p).value) == Ok(p)
  {
  }

  /** A quadrant outside 0..3 raises IndexError in both directions, whatever the crops. */
  lemma RotationOutOfRangeFails(v: View, p: Point)
    requires !(0 <= v.rotate < 4)
    ensures ConvertCords(v, p) == Err(IndexError)
    ensures ShowedCords(v, p) == Err(IndexError)
  {
  }

  /** Both directions of the pipeline reduce to the scale round trip: the crop
      offsets added by `convertCords` are exactly removed by `showedCords`. */
  lemma ShowedAfterConvert(v: View, p: Point)
    requires 0 <= v.rotate < 4 && WellFormed(v.cropping)
    ensures ShowedCords(v, ConvertCords(v, p).value) == Ok(ScaleUp(v.scale, ScaleDown(v.scale, p)))
  {
    var off := CropOffset(v.cropping).value;
    var q := ScaleDown(v.scale, p).Plus(off);
    RotationCasesInverse(v.rotate, v.originalSize, q);
    assert q.Minus(off) == ScaleDown(v.scale, p);
  }

  /** `convertCords` after `showedCords` reduces to the scale round trip taken
      in the cropped, rotated frame, carried back through the rotation case. */
  lemma ConvertAfterShowed(v: View, q: Point)
    requires 0 <= v.rotate < 4 && WellFormed(v.cropping)
    ensures var t := Rotate(v.rotate, v.originalSize, q).value.Minus(CropOffset(v.cropping).value);
      ConvertCords(v, ShowedCords(v, q).value) ==
      Unrotate(v.rotate, v.originalSize, ScaleDown(v.scale, ScaleUp(v.scale, t)).Plus(CropOffset(v.cropping).value))
  {
  }

  /** Shifting the input of a rotation case by d shifts its output by d with
      the coordinates possibly swapped and negated. */
  lemma UnrotateShift(rotate: int, size: Size, p: Point, d: Point)
    requires 0 <= rotate < 4
    ensures var a, b := Unrotate(rotate, size, p.Plus(d)).value, Unrotate(rotate, size, p).value;
      (Abs(a.x - b.x) == Abs(d.x) && Abs(a.y - b.y) == Abs(d.y)) ||
      (Abs(a.x - b.x) == Abs(d.y) && Abs(a.y - b.y) == Abs(d.x))
  {
  }

  /** At scale 1 the two transforms are exact inverses, for any crop list and
      any valid quadrant. */
  lemma UnitScaleRoundTrip(v: View, p: Point)
    requires v.scale.num == v.scale.den
    requires 0 <= v.rotate < 4 && WellFormed(v.cropping)
    ensures ShowedCords(v, ConvertCords(v, p).value) == Ok(p)
    ensures ConvertCords(v, ShowedCords(v, p).value) == Ok(p)
  {
    var s := v.scale;
    ShowedAfterConvert(v, p);
    UnitScaleIsIdentity(s, p);
    UnitScaleIsIdentity(s, ScaleDown(s, p));
    var off := CropOffset(v.cropping).value;
    var t := Rotate(v.rotate, v.originalSize, p).value.Minus(off);
    ConvertAfterShowed(v, p);
    UnitScaleIsIdentity(s, t);
    UnitScaleIsIdentity(s, ScaleUp(s, t));
    RotationCasesInverse(v.rotate, v.originalSize, p);
    assert t.Plus(off) == Rotate(v.rotate, v.originalSize, p).value;
  }

  /** A scale num / den with num == den changes no coordinate in either direction. */
  lemma UnitScaleIsIdentity(s: Scale, p: Point)
    requires s.num == s.den
    ensures ScaleDown(s, p) == p && ScaleUp(s, p) == p
  {
    RoundDivOfMultiple(p.x, s.num);
    RoundDivOfMultiple(p.y, s.num);
  }

  /** One axis of `round(round(x / s) * s)`: it is off from x by at most
      (num + den) / (2 den), that is, by at most s/2 + 1/2. */
  lemma ScaleRoundTripAxis(s: Scale, x: int)
    ensures 2 * s.den * Abs(RoundDiv(RoundDiv(x * s.den, s.num) * s.num, s.den) - x) <= s.num + s.den
  {
    var a := RoundDiv(x * s.den, s.num);
    var b := RoundDiv(a * s.num, s.den);
    RoundingChain(x, a, b, s.num, s.den);
  }

  /** One axis of `round(round(x * s) / s)`: off from x by at most 1/(2s) + 1/2. */
  lemma ReverseRoundTripAxis(s: Scale, x: int)
    ensures 2 * s.num * Abs(RoundDiv(RoundDiv(x * s.num, s.den) * s.den, s.num) - x) <= s.num + s.den
  {
    var a := RoundDiv(x * s.num, s.den);
    var b := RoundDiv(a * s.den, s.num);
    RoundingChain(x, a, b, s.den, s.num);
  }

  /** When the display scale never enlarges (s <= 1), drawing a converted click
      lands within one pixel of the click on each axis. */
  lemma DownscaledRoundTripWithinOne(v: View, p: Point)
    requires v.scale.num <= v.scale.den
    requires 0 <= v.rotate < 4 && WellFormed(v.cropping)
    ensures Abs(ShowedCords(v, ConvertCords(v, p).value).value.x - p.x) <= 1
    ensures Abs(ShowedCords(v, ConvertCords(v, p).value).value.y - p.y) <= 1
  {
    var s := v.scale;
    ShowedAfterConvert(v, p);
    var r := ScaleUp(s, ScaleDown(s, p));
    ScaleRoundTripAxis(s, p.x);
    ScaleRoundTripAxis(s, p.y);
    AtMostOneFromBound(Abs(r.x - p.x), s.den);
    AtMostOneFromBound(Abs(r.y - p.y), s.den);
  }

  /** When the display scale never shrinks (s >= 1), converting a drawn point
      lands within one pixel of its source position on each axis. */
  lemma UpscaledReverseWithinOne(v: View, q: Point)
    requires v.scale.num >= v.scale.den
    requires 0 <= v.rotate < 4 && WellFormed(v.cropping)
    ensures Abs(ConvertCords(v, ShowedCords(v, q).value).value.x - q.x) <= 1
    ensures Abs(ConvertCords(v, ShowedCords(v, q).value).value.y - q.y) <= 1
  {
    var s := v.scale;
    var off := CropOffset(v.cropping).value;
    var t := Rotate(v.rotate, v.originalSize, q).value.Minus(off);
    var c := ScaleDown(s, ScaleUp(s, t));
    ConvertAfterShowed(v, q);
    ReverseRoundTripAxis(s, t.x);
    ReverseRoundTripAxis(s, t.y);
    AtMostOneFromBound(Abs(c.x - t.x), s.num);
    AtMostOneFromBound(Abs(c.y - t.y), s.num);
    RotationCasesInverse(v.rotate, v.originalSize, q);
    assert t.Plus(off) == Rotate(v.rotate, v.originalSize, q).value;
    assert c.Plus(off) == t.Plus(off).Plus(c.Minus(t));
    UnrotateShift(v.rotate, v.originalSize, t.Plus(off), c.Minus(t));
  }
}
