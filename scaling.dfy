/** The display scale chosen by `VideoSetter._scale` for the frame about to be
    shown, as an exact fraction instead of a float. */
module Scaling {
  import opened Outcomes
  import opened Geometry

  /** The largest side, in pixels, shown without scaling. */
  const MaxSide := 900

  function Max(a: nat, b: nat): nat { if a < b then b else a }

  /** `_scale` as written: when either side exceeds 900 the frame is resized to
      900 px high and the scale is 900 / height, which enlarges a frame that
      is wide but less than 900 px tall. An empty frame cannot be resized,
      and one with no rows would divide by zero: either way the call raises. */
  function ScaleFactorAsWritten(width: nat, height: nat): (r: Result<Scale>)
    ensures r.Err? <==> (width > MaxSide || height > MaxSide) && (width == 0 || height == 0)
    ensures width <= MaxSide && height <= MaxSide ==> r == Ok(UnitScale)
    ensures r.Ok? && (width > MaxSide || height > MaxSide) ==>
      height * r.value.num == MaxSide * r.value.den
  {
    if width > MaxSide || height > MaxSide then
      if width == 0 || height == 0 then Err(EmptyFrame) else Ok(Ratio(MaxSide, height))
    else Ok(UnitScale)
  }

  /** An uncropped 1000 x 200 first frame gets scale 9/2, so `showedCords`
      places its right edge at 4500 instead of within 900 px, and a click two
      pixels from the origin is drawn back two pixels away from where it was
      made. */
  lemma AsWrittenEnlargesWideFrame()
    ensures ScaleFactorAsWritten(1000, 200) == Ok(Ratio(900, 200))
    ensures var v := View(0, Ratio(900, 200), Size(1000, 200), []);
      ShowedCords(v, ConvertCords(v, Point(2, 0)).value) == Ok(Point(0, 0))
  {
    var v := View(0, Ratio(900, 200), Size(1000, 200), []);
    assert RoundDiv(2 * 200, 900) == 0;
    assert RoundDiv(0 * 200, 900) == 0;
    assert ScaleDown(v.scale, Point(2, 0)) == Point(0, 0);
    assert RoundDiv(0 * 900, 200) == 0;
    assert ScaleUp(v.scale, Point(0, 0)) == Point(0, 0);
  }

  /** A crop more than 900 px wide and zero pixels high makes `_scale` raise. */
  lemma AsWrittenRaisesOnEmptyCrop()
    ensures ScaleFactorAsWritten(1000, 0) == Err(EmptyFrame)
  {
  }

  /** The evidently intended scale: shrink so that the larger side is 900 px,
      otherwise leave the frame alone. It never enlarges and always fits. */
  function ScaleFactor(width: nat, height: nat): (s: Scale)
    ensures s.num <= s.den
    ensures width * s.num <= MaxSide * s.den && height * s.num <= MaxSide * s.den
    ensures width <= MaxSide && height <= MaxSide ==> s == UnitScale
    ensures width > MaxSide || height > MaxSide ==> Max(width, height) * s.num == MaxSide * s.den
  {
    var side := Max(width, height);
    if side > MaxSide then Ratio(MaxSide, side) else UnitScale
  }

  /** `_scale` with the intended factor; resizing an empty frame still raises. */
  function ScaleFor(width: nat, height: nat): (r: Result<Scale>)
    ensures r.Err? <==> (width > MaxSide || height > MaxSide) && (width == 0 || height == 0)
    ensures r.Err? ==> r.error == EmptyFrame
    ensures r.Ok? ==> r.value == ScaleFactor(width, height)
  {
    if (width > MaxSide || height > MaxSide) && (width == 0 || height == 0) then Err(EmptyFrame)
    else Ok(ScaleFactor(width, height))
  }

  /** On frames at least as tall as they are wide, as-written and intended agree. */
  lemma ScaleFactorAgreesOnTallFrames(width: nat, height: nat)
    requires width <= height
    ensures ScaleFactorAsWritten(width, height) == ScaleFor(width, height)
  {
  }

  /** On every frame wider than 900 px and wider than tall, the two differ,
      and under the stored scale the frame's width maps past 900 in
      `showedCords` coordinates. */
  lemma ScaleFactorDiffersOnWideFrames(width: nat, height: nat)
    requires width > MaxSide && width > height > 0
    ensures ScaleFactorAsWritten(width, height) != ScaleFor(width, height)
    ensures width * ScaleFactorAsWritten(width, height).value.num > MaxSide * ScaleFactorAsWritten(width, height).value.den
  {
    assert width * MaxSide > height * MaxSide;
  }

  /** With the intended scale, drawing any converted click lands within one
      pixel of it, whatever the frame size, crops and quadrant. */
  lemma ScaledRoundTripWithinOne(v: View, width: nat, height: nat, p: Point)
    requires v.scale == ScaleFactor(width, height)
    requires 0 <= v.rotate < 4 && WellFormed(v.cropping)
    ensures Abs(ShowedCords(v, ConvertCords(v, p).value).value.x - p.x) <= 1
    ensures Abs(ShowedCords(v, ConvertCords(v, p).value).value.y - p.y) <= 1
  {
    DownscaledRoundTripWithinOne(v, p);
  }

  /** Python's clamping of a slice bound `i` on an axis of length n. */
  function SliceBound(n: nat, i: int): (b: nat)
    ensures b <= n
    ensures 0 <= i <= n ==> b == i
  {
    if i < 0 then (if i + n < 0 then 0 else i + n)
    else if i > n then n
    else i
  }

  /** The length of `a[start:stop]` for an axis of length n. */
  function SliceLength(n: nat, start: int, stop: int): (len: nat)
    ensures len <= n
    ensures 0 <= start <= stop <= n ==> len == stop - start
    ensures 0 <= stop <= start ==> len == 0
  {
    var a, b := SliceBound(n, start), SliceBound(n, stop);
    if b <= a then 0 else b - a
  }

  /** Both corners of a crop are set. */
  predicate Complete(c: Crop) {
    c.first.At? && c.second.At?
  }

  /** `frame[A.y:B.y, A.x:B.x]`: rows are sliced by the corners' y, columns by
      their x; reading a corner that is `()` raises IndexError. */
  function CropOnce(size: Size, c: Crop): (r: Result<Size>)
    ensures r.Ok? <==> Complete(c)
    ensures r.Err? ==> r.error == IndexError
    ensures r.Ok? ==> r.value.width <= size.width && r.value.height <= size.height
  {
    match (c.first, c.second)
    case (At(a), At(b)) =>
      Ok(Size(SliceLength(size.width, a.x, b.x), SliceLength(size.height, a.y, b.y)))
    case _ => Err(IndexError)
  }

  /** The size of the frame `showFrame` scales: the first frame cut by every
      crop in turn. */
  function CroppedSize(size: Size, cropping: seq<Crop>): (r: Result<Size>)
    ensures r.Ok? <==> forall i :: 0 <= i < |cropping| ==> Complete(cropping[i])
    ensures r.Err? ==> r.error == IndexError
    ensures r.Ok? ==> r.value.width <= size.width && r.value.height <= size.height
  {
    if |cropping| == 0 then Ok(size)
    else
      var init := cropping[..|cropping| - 1];
      assert forall i :: 0 <= i < |init| ==> init[i] == cropping[i];
      var cut :- CroppedSize(size, init);
      CropOnce(cut, cropping[|cropping| - 1])
  }

  /** The scale `showFrame` leaves in `scaleF`: `_scale` as written, on the
      first frame cut by every crop. An unset corner raises IndexError while
      cutting, and an empty cut that has to be resized raises in `cv2.resize`,
      before `scaleF` is assigned. The height shown always fits 900 px. */
  function ShownScale(size: Size, cropping: seq<Crop>): (r: Result<Scale>)
    ensures r.Ok? ==> WellFormed(cropping) && CroppedSize(size, cropping).Ok?
    ensures r.Ok? ==> CroppedSize(size, cropping).value.height * r.value.num <= MaxSide * r.value.den
    ensures r.Err? ==> r.error == if CroppedSize(size, cropping).Err? then IndexError else EmptyFrame
  {
    var cut :- CroppedSize(size, cropping);
    ScaleFactorAsWritten(cut.width, cut.height)
  }

  /** Whether `showFrame` returns normally. Besides the errors of cutting and
      `_scale`, `cv2.imshow` refuses a frame with no rows or no columns, so an
      empty cut raises even when `_scale` did not resize it. */
  function ShowOutcome(size: Size, cropping: seq<Crop>): (r: Result<()>)
    ensures r.Ok? ==> ShownScale(size, cropping).Ok?
    ensures ShownScale(size, cropping).Err? ==> r == Err(ShownScale(size, cropping).error)
    ensures r.Err? ==> r.error == if CroppedSize(size, cropping).Err? then IndexError else EmptyFrame
    ensures r.Ok? <==> (CroppedSize(size, cropping).Ok? &&
      CroppedSize(size, cropping).value.width > 0 && CroppedSize(size, cropping).value.height > 0)
  {
    var cut :- CroppedSize(size, cropping);
    if cut.width == 0 || cut.height == 0 then Err(EmptyFrame) else Ok(())
  }

  /** An uncropped 1920 x 1080 video, the commonest input, is stored at scale
      900 / 1080, so a click at (100, 100) maps to (120, 120) in the first
      frame. That is consistent with the 1600 x 900 frame `cv2.resize` shows,
      since for an uncropped frame 900 / height is exactly its scale. The
      intended rule gives 900 / 1920 and (213, 213), and so only holds if the
      resize target is changed together with the scale. */
  lemma LandscapeHdScale()
    ensures ShownScale(Size(1920, 1080), []) == Ok(Ratio(900, 1080))
    ensures ConvertCords(View(0, Ratio(900, 1080), Size(1920, 1080), []), Point(100, 100)) == Ok(Point(120, 120))
    ensures ScaleFor(1920, 1080) == Ok(Ratio(900, 1920))
    ensures ConvertCords(View(0, Ratio(900, 1920), Size(1920, 1080), []), Point(100, 100)) == Ok(Point(213, 213))
  {
    assert RoundDiv(100 * 1080, 900) == 120;
    assert RoundDiv(100 * 1920, 900) == 213;
  }

  /** A drag that stays inside the frame cuts it to exactly the dragged rectangle. */
  lemma CropInsideFrame(size: Size, a: Point, b: Point)
    requires 0 <= a.x <= b.x <= size.width && 0 <= a.y <= b.y <= size.height
    ensures CropOnce(size, Crop(At(a), At(b))) == Ok(Size(b.x - a.x, b.y - a.y))
  {
  }

  /** A drag towards the top left inside the frame leaves no columns and no
      rows; `_scale` sets the scale to 1, and then `cv2.imshow` raises. */
  lemma ReversedDragEmptiesFrame(size: Size, a: Point, b: Point)
    requires 0 <= b.x <= a.x <= size.width && 0 <= b.y <= a.y <= size.height
    ensures CropOnce(size, Crop(At(a), At(b))) == Ok(Size(0, 0))
    ensures ShownScale(size, [Crop(At(a), At(b))]) == Ok(UnitScale)
    ensures ShowOutcome(size, [Crop(At(a), At(b))]) == Err(EmptyFrame)
  {
    assert [Crop(At(a), At(b))][..0] == [];
  }

  /** A drag leftwards that spans more than 900 rows leaves a frame with no
      columns that still has to be resized, so `_scale` raises before it
      assigns the scale. */
  lemma LeftwardTallDragRaises(size: Size, a: Point, b: Point)
    requires 0 <= b.x <= a.x <= size.width && 0 <= a.y && a.y + MaxSide < b.y <= size.height
    ensures ShownScale(size, [Crop(At(a), At(b))]) == Err(EmptyFrame)
    ensures ShowOutcome(size, [Crop(At(a), At(b))]) == Err(EmptyFrame)
  {
    var cs := [Crop(At(a), At(b))];
    assert cs[..0] == [];
    assert CroppedSize(size, cs) == CropOnce(size, cs[0]);
    assert CropOnce(size, cs[0]) == Ok(Size(0, b.y - a.y));
  }
}
