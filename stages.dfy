/** The three interactive stages of `VideoSetter.set` (`crop`, `rotating`,
    `placement`) and what a key or a mouse event does in each, as pure step
    functions. The flags `isCropping`, `isRotating` and `isPlacement` are never
    set two at a time, so one `Stage` value stands for all three. */
module Stages {
  import opened Geometry

  datatype Stage = Idle | Cropping | Rotating | Placement

  /** What one `cv2.waitKey()` result makes the active loop do. */
  datatype Action =
    | Stay        // any other key: it is printed and the loop goes on
    | Advance     // Enter: `break`, on to the next stage
    | RotateView  // 'r' in the rotating stage
    | Undo        // Backspace in the placement stage: `removeLast`
    | Abort       // no key (-1, the window was closed): `quit()`

  const NoKey := -1
  const Backspace := 8
  const Enter := 13
  const KeyR := 114 // ord('r')

  /** The key dispatch of the loop that runs in `stage`. Keys are only read
      inside the three stage loops. */
  function OnKey(stage: Stage, key: int): (a: Action)
    requires stage != Idle
    ensures a == Abort <==> key == NoKey
    ensures a == Advance <==> key == Enter && stage != Placement
    ensures a == RotateView <==> key == KeyR && stage == Rotating
    ensures a == Undo <==> key == Backspace && stage == Placement
  {
    match stage
    case Cropping =>
      if key == Enter then Advance else if key == NoKey then Abort else Stay
    case Rotating =>
      if key == Enter then Advance
      else if key == KeyR then RotateView
      else if key == NoKey then Abort
      else Stay
    case Placement =>
      if key == NoKey then Abort else if key == Backspace then Undo else Stay
  }

  /** The order `set` runs the stages in. */
  function Rank(s: Stage): nat {
    match s
    case Idle => 0
    case Cropping => 1
    case Rotating => 2
    case Placement => 3
  }

  /** The stage entered when the loop of `s` breaks. The placement loop has no
      `break`, so it is never left except through `quit()`. */
  function NextStage(s: Stage): (t: Stage)
    requires s == Cropping || s == Rotating
    ensures Rank(t) == Rank(s) + 1
  {
    if s == Cropping then Rotating else Placement
  }

  /** The stage reached from `s` after the keys `keys`, stopping at `quit()`. */
  function StageAfter(s: Stage, keys: seq<int>): Stage
    requires s != Idle
    decreases |keys|
  {
    if |keys| == 0 then s
    else
      match OnKey(s, keys[0])
      case Abort => s
      case Advance => StageAfter(NextStage(s), keys[1..])
      case _ => StageAfter(s, keys[1..])
  }

  /** Stages are only ever entered in order: no key sequence goes back, and
      placement, once reached, is never left. */
  lemma {:induction false} StagesOnlyMoveForward(s: Stage, keys: seq<int>)
    requires s != Idle
    ensures Rank(StageAfter(s, keys)) >= Rank(s)
    ensures s == Placement ==> StageAfter(s, keys) == Placement
    decreases |keys|
  {
    if |keys| > 0 {
      match OnKey(s, keys[0])
      case Abort =>
      case Advance => StagesOnlyMoveForward(NextStage(s), keys[1..]);
      case _ => StagesOnlyMoveForward(s, keys[1..]);
    }
  }

  /** Two Enter presses take the cropping stage to placement. */
  lemma {:induction false} TwoEntersReachPlacement(rest: seq<int>)
    ensures StageAfter(Cropping, [Enter, Enter] + rest) == Placement
  {
    var keys := [Enter, Enter] + rest;
    assert keys[1..] == [Enter] + rest;
    assert keys[1..][1..] == rest;
    StagesOnlyMoveForward(Placement, rest);
  }

  /** `self.rotate = (self.rotate + 1) % 4`: the next quarter turn. */
  function NextRotation(r: int): (n: int)
    ensures 0 <= n < 4
    // the definition itself, kept so that callers see it without unfolding
    ensures r >= 0 ==> n == (r + 1) % 4
  {
    (r + 1) % 4
  }

  /** The quadrant after `n` presses of 'r'. */
  function RotationAfter(r: int, n: nat): int {
    if n == 0 then r else NextRotation(RotationAfter(r, n - 1))
  }

  lemma NextOfRemainder(m: int)
    requires m >= 0
    ensures NextRotation(m % 4) == (m + 1) % 4
  {
  }

  /** n presses from a valid quadrant r land on (r + n) mod 4. */
  lemma {:induction false} RotationAfterPresses(r: int, n: nat)
    requires 0 <= r < 4
    ensures RotationAfter(r, n) == (r + n) % 4
  {
    if n > 0 {
      RotationAfterPresses(r, n - 1);
      NextOfRemainder(r + n - 1);
    }
  }

  /** Four presses of 'r' bring the view back to where it was. */
  lemma FourPressesRestore(r: int)
    requires 0 <= r < 4
    ensures RotationAfter(r, 4) == r
  {
    RotationAfterPresses(r, 4);
  }

  /** `croppingArea` (the corners captured so far) and `cropping` (the crops). */
  datatype CropState = CropState(area: Crop, cropping: seq<Crop>)

  const LeftButtonDown := 1 // cv2.EVENT_LBUTTONDOWN
  const LeftButtonUp := 4   // cv2.EVENT_LBUTTONUP

  /** The events after which `onClick` calls `showFrame`: a release while
      cropping, a press while placing. */
  predicate Redraws(stage: Stage, event: int) {
    (stage == Cropping && event == LeftButtonUp) || (stage == Placement && event == LeftButtonDown)
  }

  /** A mouse event at the converted position `p` during the cropping stage:
      a press records corner A, a release records corner B, appends the pair
      to the crops and clears the corners; other events change nothing.
      Crops only ever accumulate, each with its corner B set. */
  function CropEvent(st: CropState, event: int, p: Point): (r: CropState)
    ensures |st.cropping| <= |r.cropping| <= |st.cropping| + 1
    ensures r.cropping[..|st.cropping|] == st.cropping
    ensures |r.cropping| > |st.cropping| <==> event == LeftButtonUp
    ensures |r.cropping| > |st.cropping| ==>
      r.cropping[|st.cropping|] == Crop(st.area.first, At(p)) && r.area == NoCorners
    ensures event == LeftButtonDown ==>
      r.cropping == st.cropping && r.area == Crop(At(p), st.area.second)
    ensures event != LeftButtonDown && event != LeftButtonUp ==> r == st
  {
    if event == LeftButtonDown then CropState(Crop(At(p), st.area.second), st.cropping)
    else if event == LeftButtonUp then
      var done := Crop(st.area.first, At(p));
      CropState(NoCorners, st.cropping + [done])
    else st
  }

  /** Press at a, then release at b: exactly the crop (a, b) is added and the
      corners are cleared, whatever was captured before. */
  lemma PressThenRelease(st: CropState, a: Point, b: Point)
    ensures CropEvent(CropEvent(st, LeftButtonDown, a), LeftButtonUp, b) ==
      CropState(NoCorners, st.cropping + [Crop(At(a), At(b))])
  {
  }

  /** A release with no press since the last crop adds a crop without corner A;
      from then on both coordinate transforms raise IndexError for every
      position, whatever the scale and quadrant. */
  lemma ReleaseWithoutPress(st: CropState, b: Point, v: View, q: Point)
    requires st.area.first == Unset
    requires v.cropping == CropEvent(st, LeftButtonUp, b).cropping
    ensures !WellFormed(v.cropping)
    ensures ConvertCords(v, q).Err? && ShowedCords(v, q).Err?
  {
    assert v.cropping[|st.cropping|].first == Unset;
  }

  /** While corner A is set before every release, the crops stay well formed. */
  lemma ArmedReleaseKeepsWellFormed(st: CropState, event: int, p: Point)
    requires WellFormed(st.cropping)
    requires event == LeftButtonUp ==> st.area.first.At?
    ensures WellFormed(CropEvent(st, event, p).cropping)
  {
    var r := CropEvent(st, event, p);
    forall i | 0 <= i < |r.cropping|
      ensures r.cropping[i].first.At?
    {
      if i < |st.cropping| {
        assert r.cropping[i] == r.cropping[..|st.cropping|][i];
      }
    }
  }
}
