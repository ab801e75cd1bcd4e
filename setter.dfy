/** The `VideoSetter` object: its fields, and the methods that read and update
    them in place, each proved against the pure definitions of the other
    modules. The fields holding OpenCV objects (the capture, the frames) and
    the window are not modelled; the size of the first frame is a parameter. */
module Setter {
  import opened Outcomes
  import opened Geometry
  import Scaling
  import Stages
  import Placement

  class VideoSetter {
    /** `isCropping`, `isRotating`, `isPlacement`. */
    var stage: Stages.Stage
    var rotate: int
    var scaleF: Scale
    const originalSize: Size
    var cropping: seq<Crop>
    var croppingArea: Crop
    var digits: seq<Placement.Digit>
    var segmentsHistory: seq<Placement.Segment>

    /** The quadrant is one `convertCords` knows, and the digits and the
        history agree. */
    ghost predicate Valid()
      reads this
    {
      0 <= rotate < 4 && Placement.Valid(Layout())
    }

    function View(): View
      reads this
    {
      Geometry.View(rotate, scaleF, originalSize, cropping)
    }

    function Layout(): Placement.Layout
      reads this
    {
      Placement.Layout(digits, segmentsHistory)
    }

    /** `scaleF` and the outcome `r` are what `showFrame` leaves for the
        current crops, starting from the scale `before`: the scale is kept
        only when `_scale` raised before assigning it. */
    ghost predicate Shown(r: Result<()>, before: Scale)
      reads this
    {
      && r == Scaling.ShowOutcome(originalSize, cropping)
      && scaleF == match Scaling.ShownScale(originalSize, cropping)
                   case Ok(s) => s
                   case Err(_) => before
    }

    /** `__init__` for a video whose first frame is width x height pixels. */
    constructor (width: nat, height: nat)
      ensures stage == Stages.Idle && rotate == 0 && scaleF == UnitScale
      ensures originalSize == Size(width, height)
      ensures cropping == [] && croppingArea == NoCorners
      ensures digits == [] && segmentsHistory == []
      ensures Valid()
    {
      stage := Stages.Idle;
      rotate := 0;
      scaleF := UnitScale;
      originalSize := Size(width, height);
      cropping := [];
      croppingArea := NoCorners;
      digits := [];
      segmentsHistory := [];
    }

    /** `showFrame`, as far as it updates the object: cut the first frame by
        every crop in turn, `_scale` the result, and show it. */
    method ShowFrame() returns (r: Result<()>)
      modifies this
      ensures Shown(r, old(scaleF))
      ensures stage == old(stage) && rotate == old(rotate)
      ensures cropping == old(cropping) && croppingArea == old(croppingArea)
      ensures digits == old(digits) && segmentsHistory == old(segmentsHistory)
    {
      var size := originalSize;
      var i := 0;
      while i < |cropping|
        invariant 0 <= i <= |cropping|
        invariant Scaling.CroppedSize(originalSize, cropping[..i]) == Ok(size)
      {
        assert cropping[..i + 1][..i] == cropping[..i];
        match (cropping[i].first, cropping[i].second) {
          case (At(a), At(b)) =>
            size := Size(Scaling.SliceLength(size.width, a.x, b.x), Scaling.SliceLength(size.height, a.y, b.y));
          case _ =>
            assert !Scaling.Complete(cropping[i]);
            return Err(IndexError);
        }
        i := i + 1;
      }
      assert cropping[..i] == cropping;
      var s :- Scaling.ScaleFactorAsWritten(size.width, size.height);
      scaleF := s;
      if size.width == 0 || size.height == 0 {
        // `cv2.imshow` refuses an empty frame.
        return Err(EmptyFrame);
      }
      return Ok(());
    }

    /** `convertCords`: screen position to first-frame position. */
    method ConvertCords(pos: Point) returns (r: Result<Point>)
      ensures r == Geometry.ConvertCords(View(), pos)
    {
      var p := ScaleDown(scaleF, pos);
      var i := 0;
      while i < |cropping|
        invariant 0 <= i <= |cropping|
        invariant CropOffset(cropping[..i]).Ok?
        invariant p == ScaleDown(scaleF, pos).Plus(CropOffset(cropping[..i]).value)
      {
        assert cropping[..i + 1][..i] == cropping[..i];
        match cropping[i].first {
          case Unset =>
            assert !WellFormed(cropping);
            return Err(IndexError);
          case At(c) =>
            p := p.Plus(c);
        }
        i := i + 1;
      }
      assert cropping[..i] == cropping;
      var w, h := originalSize.width, originalSize.height;
      if rotate == 0 {
        r := Ok(p);
      } else if rotate == 1 {
        r := Ok(Point(w - p.y, p.x));
      } else if rotate == 2 {
        r := Ok(Point(w - p.x, h - p.y));
      } else if rotate == 3 {
        r := Ok(Point(p.y, h - p.x));
      } else {
        r := Err(IndexError);
      }
    }

    /** `showedCords`: first-frame position to screen position. */
    method ShowedCords(pos: Point) returns (r: Result<Point>)
      ensures r == Geometry.ShowedCords(View(), pos)
    {
      var w, h := originalSize.width, originalSize.height;
      var p: Point;
      if rotate == 0 {
        p := pos;
      } else if rotate == 1 {
        p := Point(pos.y, w - pos.x);
      } else if rotate == 2 {
        p := Point(w - pos.x, h - pos.y);
      } else if rotate == 3 {
        p := Point(h - pos.y, pos.x);
      } else {
        return Err(IndexError);
      }
      ghost var turned := p;
      var i := 0;
      while i < |cropping|
        invariant 0 <= i <= |cropping|
        invariant CropOffset(cropping[..i]).Ok?
        invariant p == turned.Minus(CropOffset(cropping[..i]).value)
      {
        assert cropping[..i + 1][..i] == cropping[..i];
        match cropping[i].first {
          case Unset =>
            assert !WellFormed(cropping);
            return Err(IndexError);
          case At(c) =>
            p := p.Minus(c);
        }
        i := i + 1;
      }
      assert cropping[..i] == cropping;
      r := Ok(ScaleUp(scaleF, p));
    }

    /** `Digit.place` on the digit in slot k. */
    method Place(k: nat, pos: Point)
      requires k < |digits|
      modifies this
      ensures Layout() == Placement.Place(old(Layout()), k, pos)
      ensures stage == old(stage) && rotate == old(rotate) && scaleF == old(scaleF)
      ensures cropping == old(cropping) && croppingArea == old(croppingArea)
    {
      var d := digits[k];
      var seg := Placement.Segment(|segmentsHistory|, d.id, pos);
      digits := digits[k := Placement.Digit(d.id, d.segments + [seg])];
      segmentsHistory := segmentsHistory + [seg];
    }

    /** `setSegment`: place into the first digit that is not full, creating a
        digit when there is none or every one is full. */
    method SetSegment(pos: Point)
      modifies this
      ensures Layout() == Placement.SetSegment(old(Layout()), pos)
      ensures stage == old(stage) && rotate == old(rotate) && scaleF == old(scaleF)
      ensures cropping == old(cropping) && croppingArea == old(croppingArea)
    {
      if |digits| == 0 {
        digits := digits + [Placement.Digit(|digits|, [])];
      }
      ghost var l1 := Layout();
      assert l1 == if |old(digits)| == 0 then Placement.NewDigit(old(Layout())) else old(Layout());
      var i := 0;
      while i < |digits| && Placement.IsFull(digits[i])
        invariant 0 <= i <= |digits|
        invariant forall j :: 0 <= j < i ==> Placement.IsFull(digits[j])
      {
        i := i + 1;
      }
      assert i == Placement.FirstOpen(l1.digits);
      if i == |digits| {
        digits := digits + [Placement.Digit(|digits|, [])];
        assert Layout() == Placement.NewDigit(l1);
      }
      Place(i, pos);
    }

    /** `digit.segments.remove(seg)`, `segmentsHistory.remove(seg)`, and
        `digits.remove(digit)` once the digit in slot k is empty. */
    method Detach(k: nat, seg: Placement.Segment)
      requires k < |digits| && seg in digits[k].segments && seg in segmentsHistory
      modifies this
      ensures Layout() == Placement.Detach(old(Layout()), k, seg)
      ensures stage == old(stage) && rotate == old(rotate) && scaleF == old(scaleF)
      ensures cropping == old(cropping) && croppingArea == old(croppingArea)
    {
      var d := Placement.Digit(digits[k].id, Placement.RemoveFirst(digits[k].segments, seg));
      digits := digits[k := d];
      assert digits[k] == d;
      segmentsHistory := Placement.RemoveFirst(segmentsHistory, seg);
      if Placement.IsEmpty(d) {
        digits := Placement.RemoveFirst(digits, d);
      }
    }

    /** The body of `removeLast` before its `showFrame`: the last segment of
        the history, and the digit it refers to. */
    method DetachLast()
      requires Placement.Valid(Layout())
      modifies this
      ensures Layout() == Placement.RemoveLast(old(Layout()))
      ensures stage == old(stage) && rotate == old(rotate) && scaleF == old(scaleF)
      ensures cropping == old(cropping) && croppingArea == old(croppingArea)
    {
      if |segmentsHistory| > 0 {
        ghost var before := Layout();
        var seg := segmentsHistory[|segmentsHistory| - 1];
        Placement.LastSegmentOwner(before);
        var k := Placement.DigitIndex(digits, seg.digit);
        Detach(k, seg);
        Placement.RemoveLastIsDetach(before);
      }
    }

    /** `removeLast`: drop the most recent segment from its digit and from the
        history, drop the digit once it is empty, then `showFrame`. */
    method RemoveLast() returns (r: Result<()>)
      requires Valid()
      modifies this
      ensures Layout() == Placement.RemoveLast(old(Layout()))
      ensures Valid()
      ensures Shown(r, old(scaleF))
      ensures stage == old(stage) && rotate == old(rotate)
      ensures cropping == old(cropping) && croppingArea == old(croppingArea)
    {
      Placement.RemoveLastKeepsValid(Layout());
      DetachLast();
      r := ShowFrame();
    }

    /** `set` up to the cropping loop: show the frame, then enter cropping. */
    method Start() returns (r: Result<()>)
      requires Valid() && stage == Stages.Idle
      modifies this
      ensures Valid()
      ensures Shown(r, old(scaleF))
      ensures stage == if r.Ok? then Stages.Cropping else Stages.Idle
      ensures rotate == old(rotate) && Layout() == old(Layout())
      ensures cropping == old(cropping) && croppingArea == old(croppingArea)
    {
      r := ShowFrame();
      if r.Ok? {
        stage := Stages.Cropping;
      }
    }

    /** `onClick` for a mouse event at the screen position `pos`: the position
        is converted first, whatever the stage; a press or release while
        cropping updates the corners and the crops, and a press while placing
        adds a segment; both then show the frame again. */
    method OnClick(event: int, pos: Point) returns (r: Result<()>)
      requires Valid()
      modifies this
      ensures Valid()
      ensures stage == old(stage) && rotate == old(rotate)
      ensures Geometry.ConvertCords(old(View()), pos).Err? ==>
        r == Err(IndexError) && View() == old(View()) && croppingArea == old(croppingArea) && Layout() == old(Layout())
      ensures Geometry.ConvertCords(old(View()), pos).Ok? ==>
        var p := Geometry.ConvertCords(old(View()), pos).value;
        && (old(stage) == Stages.Cropping ==>
              Stages.CropState(croppingArea, cropping) == Stages.CropEvent(Stages.CropState(old(croppingArea), old(cropping)), event, p)
              && Layout() == old(Layout()))
        && (old(stage) == Stages.Placement && event == Stages.LeftButtonDown ==>
              Layout() == Placement.SetSegment(old(Layout()), p)
              && cropping == old(cropping) && croppingArea == old(croppingArea))
        && (Stages.Redraws(old(stage), event) ==> Shown(r, old(scaleF)))
        && (!Stages.Redraws(old(stage), event) ==> r == Ok(()) && scaleF == old(scaleF))
        && (old(stage) != Stages.Cropping && !(old(stage) == Stages.Placement && event == Stages.LeftButtonDown) ==>
              cropping == old(cropping) && croppingArea == old(croppingArea) && Layout() == old(Layout()))
    {
      var p :- ConvertCords(pos);
      r := Ok(());
      if stage == Stages.Cropping {
        if event == Stages.LeftButtonDown {
          croppingArea := Crop(At(p), croppingArea.second);
        } else if event == Stages.LeftButtonUp {
          croppingArea := Crop(croppingArea.first, At(p));
          cropping := cropping + [croppingArea];
          croppingArea := NoCorners;
          r := ShowFrame();
        }
      } else if stage == Stages.Placement {
        if event == Stages.LeftButtonDown {
          Placement.SetSegmentKeepsValid(Layout(), p);
          SetSegment(p);
          r := ShowFrame();
        }
      }
    }

    /** One pass of the loop of the current stage: show the frame, read the
        key, and act on it. `quit()` ends the program and is returned as
        `Abort` with nothing changed. */
    method HandleKey(key: int) returns (r: Result<Stages.Action>)
      requires Valid() && stage != Stages.Idle
      modifies this
      ensures Valid()
      ensures cropping == old(cropping) && croppingArea == old(croppingArea)
      ensures Shown(if r.Ok? then Ok(()) else Err(r.error), old(scaleF))
      ensures r.Ok? ==> r.value == Stages.OnKey(old(stage), key)
      ensures stage == if r.Ok? && r.value == Stages.Advance then Stages.NextStage(old(stage)) else old(stage)
      ensures rotate == if r.Ok? && r.value == Stages.RotateView then Stages.NextRotation(old(rotate)) else old(rotate)
      ensures Layout() == if r.Ok? && r.value == Stages.Undo then Placement.RemoveLast(old(Layout())) else old(Layout())
    {
      var shown := ShowFrame();
      if shown.Err? {
        return Err(shown.error);
      }
      var a := Stages.OnKey(stage, key);
      if a == Stages.Advance {
        stage := Stages.NextStage(stage);
      } else if a == Stages.RotateView {
        rotate := Stages.NextRotation(rotate);
      } else if a == Stages.Undo {
        // The crops are the ones just shown, so this `showFrame` succeeds too.
        var _ := RemoveLast();
      }
      r := Ok(a);
    }
  }
}
