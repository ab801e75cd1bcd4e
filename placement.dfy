/** Segment placement bookkeeping of the calibration window: `VideoSetter.digits`
    (each `Digit` owns the list of its `Segment`s) and `VideoSetter.segmentsHistory`
    (every segment in the order it was placed), with `setSegment`, `removeLast`
    and the `Digit` helpers.

    Python tells these objects apart by identity. Digits are only ever removed
    from the end of `digits` and segments only from the end of the history
    (both proved below), so an object's creation slot identifies it: a segment's
    id is the length of the history when it was placed, a digit's id the length
    of `digits` when it was created. */
module Placement {
  import opened Outcomes
  import opened Geometry

  /** `Digit.isFull`: a digit holds seven segments. */
  const DigitCapacity := 7

  /** A placed calibration point; `digit` is the id of the owning `Digit` (the back-reference `seg.digit`). */
  datatype Segment = Segment(id: nat, digit: nat, pos: Point)

  datatype Digit = Digit(id: nat, segments: seq<Segment>)

  /** `digits` and `segmentsHistory`. */
  datatype Layout = Layout(digits: seq<Digit>, history: seq<Segment>)

  const Empty := Layout([], [])

  predicate IsFull(d: Digit) {
    |d.segments| >= DigitCapacity
  }

  predicate IsEmpty(d: Digit) {
    |d.segments| == 0
  }

  /** The segments of all digits, digit after digit. */
  function Flatten(ds: seq<Digit>): seq<Segment> {
    if |ds| == 0 then [] else Flatten(ds[..|ds| - 1]) + ds[|ds| - 1].segments
  }

  /** The total number of segments held by the digits. */
  function Count(ds: seq<Digit>): nat {
    if |ds| == 0 then 0 else Count(ds[..|ds| - 1]) + |ds[|ds| - 1].segments|
  }

  /** No digit is empty, none holds more than seven segments, and every digit
      but the last is full. */
  ghost predicate WellSized(ds: seq<Digit>) {
    forall k :: 0 <= k < |ds| ==>
      0 < |ds[k].segments| <= DigitCapacity && (k < |ds| - 1 ==> |ds[k].segments| == DigitCapacity)
  }

  /** Every digit's id is its slot and every segment refers to the digit holding it. */
  ghost predicate Owned(ds: seq<Digit>) {
    && (forall k :: 0 <= k < |ds| ==> ds[k].id == k)
    && (forall k, i :: 0 <= k < |ds| && 0 <= i < |ds[k].segments| ==> ds[k].segments[i].digit == k)
  }

  /** Every segment's id is its slot in the history. */
  ghost predicate Numbered(h: seq<Segment>) {
    forall i :: 0 <= i < |h| ==> h[i].id == i
  }

  /** The bookkeeping invariant kept by `setSegment` and `removeLast`; the
      history lists exactly the digits' segments, in placement order. */
  ghost predicate Valid(l: Layout) {
    WellSized(l.digits) && Owned(l.digits) && Numbered(l.history) && Flatten(l.digits) == l.history
  }

  /** The index the `for d in self.digits` loop stops at: the first digit that is not full. */
  function FirstOpen(ds: seq<Digit>): (k: nat)
    ensures k <= |ds|
    ensures k < |ds| ==> !IsFull(ds[k])
    ensures forall j :: 0 <= j < k ==> IsFull(ds[j])
  {
    if |ds| == 0 then 0
    else if !IsFull(ds[0]) then 0
    else 1 + FirstOpen(ds[1..])
  }

  /** `self.digits.append(Digit(self))`: a fresh, empty digit at the end. */
  function NewDigit(l: Layout): Layout {
    Layout(l.digits + [Digit(|l.digits|, [])], l.history)
  }

  /** `Digit.place`: a fresh segment at `pos`, appended both to digit k and to the history. */
  function Place(l: Layout, k: nat, pos: Point): (r: Layout)
    requires k < |l.digits|
    ensures |r.digits| == |l.digits|
    ensures r.history == l.history + [Segment(|l.history|, l.digits[k].id, pos)]
    ensures r.digits[k] == Digit(l.digits[k].id, l.digits[k].segments + [Segment(|l.history|, l.digits[k].id, pos)])
    ensures forall j :: 0 <= j < |l.digits| && j != k ==> r.digits[j] == l.digits[j]
  {
    var d := l.digits[k];
    var seg := Segment(|l.history|, d.id, pos);
    Layout(l.digits[k := Digit(d.id, d.segments + [seg])], l.history + [seg])
  }

  /** `VideoSetter.setSegment`: one new segment at `pos` is recorded after
      the earlier history. */
  function SetSegment(l: Layout, pos: Point): (r: Layout)
    ensures |r.history| == |l.history| + 1 && r.history[..|l.history|] == l.history
    ensures r.history[|l.history|].pos == pos
  {
    var l1 := if |l.digits| == 0 then NewDigit(l) else l;
    var k := FirstOpen(l1.digits);
    if k < |l1.digits| then Place(l1, k, pos) else Place(NewDigit(l1), k, pos)
  }

  /** Index of the first occurrence of x (what `list.remove` searches for). */
  function IndexOf<T(==)>(s: seq<T>, x: T): (i: nat)
    requires x in s
    ensures i < |s| && s[i] == x
    ensures x !in s[..i]
  {
    if s[0] == x then 0 else 1 + IndexOf(s[1..], x)
  }

  /** `list.remove(x)`: drops the first occurrence of x; Python raises ValueError when x is absent. */
  function RemoveFirst<T(==)>(s: seq<T>, x: T): (r: seq<T>)
    requires x in s
    ensures |r| == |s| - 1
  {
    var i := IndexOf(s, x);
    s[..i] + s[i + 1..]
  }

  /** When x occurs only as the last element, removing it drops the last element. */
  lemma RemoveFirstOfLast<T>(s: seq<T>, x: T)
    requires |s| > 0 && s[|s| - 1] == x && x !in s[..|s| - 1]
    ensures RemoveFirst(s, x) == s[..|s| - 1]
  {
    var i := IndexOf(s, x);
  }

  /** Index of the first digit whose id is `id`: the digit object `seg.digit` refers to. */
  function DigitIndex(ds: seq<Digit>, id: nat): (k: nat)
    requires exists k :: 0 <= k < |ds| && ds[k].id == id
    ensures k < |ds| && ds[k].id == id
    ensures forall j :: 0 <= j < k ==> ds[j].id != id
  {
    if ds[0].id == id then 0
    else
      var k :| 0 <= k < |ds| && ds[k].id == id;
      assert ds[1..][k - 1].id == id;
      1 + DigitIndex(ds[1..], id)
  }

  /** In a valid layout the most recent segment is the last one of the last
      digit, occurs nowhere else, and refers to that digit. */
  lemma LastSegmentOwner(l: Layout)
    requires Valid(l) && |l.history| > 0
    ensures |l.digits| > 0
    ensures var n, seg := |l.digits|, l.history[|l.history| - 1];
      var segs := l.digits[n - 1].segments;
      && segs[|segs| - 1] == seg
      && seg !in segs[..|segs| - 1]
      && seg !in l.history[..|l.history| - 1]
      && seg.digit == n - 1
      && DigitIndex(l.digits, seg.digit) == n - 1
      && l.history[..|l.history| - 1] == Flatten(l.digits[..n - 1]) + segs[..|segs| - 1]
  {
    var h, n := l.history, |l.digits|;
    var seg := h[|h| - 1];
    var segs := l.digits[n - 1].segments;
    var front := Flatten(l.digits[..n - 1]);
    assert h == front + segs;
    assert segs[|segs| - 1] == seg;
    assert seg in l.digits[n - 1].segments;
    forall i | 0 <= i < |h| - 1
      ensures h[i] != seg
    {
      assert h[i].id == i;
    }
    forall i | 0 <= i < |segs| - 1
      ensures segs[i] != seg
    {
      assert segs[i] == h[|front| + i];
    }
    assert h[..|h| - 1] == front + segs[..|segs| - 1];
  }

  /** The body of `removeLast` once the segment and its digit are known:
      `digit.segments.remove(seg)`, `segmentsHistory.remove(seg)`, and
      `digits.remove(digit)` when the digit became empty. */
  function Detach(l: Layout, k: nat, seg: Segment): (r: Layout)
    requires k < |l.digits| && seg in l.digits[k].segments && seg in l.history
    ensures |r.history| == |l.history| - 1
    ensures |r.digits| == if |l.digits[k].segments| == 1 then |l.digits| - 1 else |l.digits|
  {
    var d := Digit(l.digits[k].id, RemoveFirst(l.digits[k].segments, seg));
    var ds := l.digits[k := d];
    assert ds[k] == d;
    var h := RemoveFirst(l.history, seg);
    if IsEmpty(d) then Layout(RemoveFirst(ds, d), h) else Layout(ds, h)
  }

  /** The digits after the most recent segment is taken off the end: it goes
      from the last digit, and that digit goes too when it held only that segment. */
  function DropLastSegment(ds: seq<Digit>): (r: seq<Digit>)
    ensures |ds| > 0 && |ds[|ds| - 1].segments| > 0 ==>
      |Flatten(ds)| > 0 && Flatten(r) == Flatten(ds)[..|Flatten(ds)| - 1]
    ensures |ds| > 0 ==> |ds| - 1 <= |r| <= |ds| && r[..|ds| - 1] == ds[..|ds| - 1]
  {
    if |ds| == 0 then ds
    else
      var d := ds[|ds| - 1];
      var front := Flatten(ds[..|ds| - 1]);
      assert Flatten(ds) == front + d.segments;
      if |d.segments| <= 1 then ds[..|ds| - 1]
      else
        var shrunk := Digit(d.id, d.segments[..|d.segments| - 1]);
        FlattenUpdateLast(ds, shrunk);
        assert (front + d.segments)[..|front + d.segments| - 1] == front + shrunk.segments;
        ds[|ds| - 1 := shrunk]
  }

  /** `VideoSetter.removeLast` as an undo: forget the most recent placement
      (nothing to do on an empty history). That this is what the source's
      removal by identity does is `RemoveLastIsDetach`. */
  function RemoveLast(l: Layout): (r: Layout)
    ensures |l.history| > 0 ==> r.history == l.history[..|l.history| - 1]
    ensures |l.history| == 0 ==> r == l
  {
    if |l.history| == 0 then l
    else Layout(DropLastSegment(l.digits), l.history[..|l.history| - 1])
  }

  /** `Digit.removeLast`: `segments.pop(-1)`, which raises IndexError on an empty digit. */
  function PopSegment(d: Digit): (r: Result<Digit>)
    ensures r.Ok? <==> !IsEmpty(d)
    ensures r.Err? ==> r.error == IndexError
    ensures r.Ok? ==> r.value.id == d.id && |r.value.segments| == |d.segments| - 1
  {
    if |d.segments| == 0 then Err(IndexError)
    else Ok(Digit(d.id, d.segments[..|d.segments| - 1]))
  }

  /** Popping right after appending gives the digit back. */
  lemma PopUndoesAppend(d: Digit, s: Segment)
    ensures PopSegment(Digit(d.id, d.segments + [s])) == Ok(d)
  {
    assert (d.segments + [s])[..|d.segments|] == d.segments;
  }

  lemma FlattenAppend(ds: seq<Digit>, d: Digit)
    ensures Flatten(ds + [d]) == Flatten(ds) + d.segments
  {
    assert (ds + [d])[..|ds|] == ds;
  }

  lemma FlattenUpdateLast(ds: seq<Digit>, d: Digit)
    requires |ds| > 0
    ensures Flatten(ds[|ds| - 1 := d]) == Flatten(ds[..|ds| - 1]) + d.segments
  {
    assert ds[|ds| - 1 := d][..|ds| - 1] == ds[..|ds| - 1];
  }

  /** A new digit is empty and follows the old ones, so it adds no segment. */
  lemma NewDigitAddsNoSegment(l: Layout)
    ensures var r := NewDigit(l);
      && |r.digits| == |l.digits| + 1 && IsEmpty(r.digits[|l.digits|])
      && r.digits[..|l.digits|] == l.digits
      && Flatten(r.digits) == Flatten(l.digits) && r.history == l.history
  {
    FlattenAppend(l.digits, Digit(|l.digits|, []));
  }

  /** `Digit(self)` appended, then `place`d into: the one-segment digit at the end. */
  lemma PlaceInNewDigit(l: Layout, pos: Point)
    ensures var seg := Segment(|l.history|, |l.digits|, pos);
      Place(NewDigit(l), |l.digits|, pos) == Layout(l.digits + [Digit(|l.digits|, [seg])], l.history + [seg])
  {
    var seg := Segment(|l.history|, |l.digits|, pos);
    var r := Place(NewDigit(l), |l.digits|, pos);
    assert r.digits[|l.digits|] == Digit(|l.digits|, [seg]);
    assert r.digits == l.digits + [Digit(|l.digits|, [seg])];
  }

  /** Where `setSegment` puts the new segment, for any layout: the history grows
      by one segment at `pos`, which lands in the first digit that is not full,
      or in a new digit appended at the end when every digit is full or there
      are none. */
  lemma SetSegmentPlacesInFirstOpen(l: Layout, pos: Point)
    ensures var r, n, k := SetSegment(l, pos), |l.history|, FirstOpen(l.digits);
      && |r.history| == n + 1 && r.history[..n] == l.history && r.history[n].pos == pos
      && (k < |l.digits| ==>
            r.digits == l.digits[k := Digit(l.digits[k].id, l.digits[k].segments + [r.history[n]])])
      && (k == |l.digits| ==>
            r.digits == l.digits + [Digit(r.history[n].digit, [r.history[n]])])
  {
    var r, n, k := SetSegment(l, pos), |l.history|, FirstOpen(l.digits);
    if |l.digits| == 0 {
      assert FirstOpen(NewDigit(l).digits) == 0;
      PlaceInNewDigit(l, pos);
    } else if k == |l.digits| {
      PlaceInNewDigit(l, pos);
    }
    assert r.history[..n] == l.history;
  }


  /** `setSegment` on a valid layout: it fills the last digit while it has
      room, and otherwise starts a new one. */
  lemma SetSegmentShape(l: Layout, pos: Point)
    requires Valid(l)
    ensures var r, n := SetSegment(l, pos), |l.digits|;
      if n > 0 && |l.digits[n - 1].segments| < DigitCapacity then
        var seg := Segment(|l.history|, n - 1, pos);
        r == Layout(l.digits[n - 1 := Digit(n - 1, l.digits[n - 1].segments + [seg])], l.history + [seg])
      else
        var seg := Segment(|l.history|, n, pos);
        r == Layout(l.digits + [Digit(n, [seg])], l.history + [seg])
  {
    var n := |l.digits|;
    var k := FirstOpen(l.digits);
    if n > 0 && |l.digits[n - 1].segments| < DigitCapacity {
      assert k == n - 1;
    } else if n > 0 {
      assert k == n;
      PlaceInNewDigit(l, pos);
    } else {
      assert FirstOpen(NewDigit(l).digits) == 0;
      PlaceInNewDigit(l, pos);
    }
  }

  /** On a valid layout the removal by identity in `removeLast` (the last
      segment of the history, looked up through its digit back-reference)
      drops the last segment of the last digit and the tail of the history,
      and the last digit with it when it held only that segment. */
  lemma RemoveLastIsDetach(l: Layout)
    requires Valid(l) && |l.history| > 0
    ensures var n, seg := |l.digits|, l.history[|l.history| - 1];
      n > 0 && seg in l.digits[n - 1].segments && seg in l.history
    ensures Detach(l, |l.digits| - 1, l.history[|l.history| - 1]) == RemoveLast(l)
  {
    LastSegmentOwner(l);
    var n, seg := |l.digits|, l.history[|l.history| - 1];
    var segs := l.digits[n - 1].segments;
    assert seg in l.history;
    RemoveFirstOfLast(segs, seg);
    RemoveFirstOfLast(l.history, seg);
    assert l.digits[n - 1].id == n - 1;
    if |segs| == 1 {
      RemoveReplacedLastDigit(l.digits, Digit(n - 1, segs[..|segs| - 1]));
    }
  }

  /** Replacing the last of the digits numbered by slot, then removing the
      replacement, drops the last digit. */
  lemma RemoveReplacedLastDigit(ds: seq<Digit>, d: Digit)
    requires |ds| > 0 && d.id == |ds| - 1
    requires forall k :: 0 <= k < |ds| ==> ds[k].id == k
    ensures d in ds[|ds| - 1 := d]
    ensures RemoveFirst(ds[|ds| - 1 := d], d) == ds[..|ds| - 1]
  {
    var n, rs := |ds|, ds[|ds| - 1 := d];
    forall j | 0 <= j < n - 1
      ensures rs[j] != d
    {
      assert rs[j].id == j;
    }
    assert rs[..n - 1] == ds[..n - 1];
    RemoveFirstOfLast(rs, d);
  }

  /** Appending a segment to a last digit that has room keeps the invariant. */
  lemma AppendToLastKeepsValid(l: Layout, pos: Point)
    requires Valid(l)
    requires |l.digits| > 0 && |l.digits[|l.digits| - 1].segments| < DigitCapacity
    ensures var n := |l.digits|;
      var seg := Segment(|l.history|, n - 1, pos);
      Valid(Layout(l.digits[n - 1 := Digit(n - 1, l.digits[n - 1].segments + [seg])], l.history + [seg]))
  {
    var n := |l.digits|;
    var seg := Segment(|l.history|, n - 1, pos);
    var d := Digit(n - 1, l.digits[n - 1].segments + [seg]);
    var ds := l.digits[n - 1 := d];
    assert Flatten(ds) == l.history + [seg] by {
      FlattenUpdateLast(l.digits, d);
      assert l.history == Flatten(l.digits[..n - 1]) + l.digits[n - 1].segments;
    }
    assert Owned(ds) by {
      forall k, i | 0 <= k < |ds| && 0 <= i < |ds[k].segments|
        ensures ds[k].segments[i].digit == k
      {
        if k < n - 1 {
          assert ds[k] == l.digits[k];
        } else if i < |l.digits[n - 1].segments| {
          assert ds[k].segments[i] == l.digits[n - 1].segments[i];
        }
      }
    }
  }

  /** Starting a new digit after a full one (or as the first) keeps the invariant. */
  lemma StartDigitKeepsValid(l: Layout, pos: Point)
    requires Valid(l)
    requires |l.digits| == 0 || |l.digits[|l.digits| - 1].segments| == DigitCapacity
    ensures var seg := Segment(|l.history|, |l.digits|, pos);
      Valid(Layout(l.digits + [Digit(|l.digits|, [seg])], l.history + [seg]))
  {
    var n := |l.digits|;
    var seg := Segment(|l.history|, n, pos);
    var d := Digit(n, [seg]);
    var ds := l.digits + [d];
    FlattenAppend(l.digits, d);
    assert Owned(ds) by {
      forall k, i | 0 <= k < |ds| && 0 <= i < |ds[k].segments|
        ensures ds[k].segments[i].digit == k
      {
        if k < n {
          assert ds[k] == l.digits[k];
        }
      }
    }
  }

  /** `setSegment` keeps the bookkeeping invariant. */
  lemma SetSegmentKeepsValid(l: Layout, pos: Point)
    requires Valid(l)
    ensures Valid(SetSegment(l, pos))
  {
    SetSegmentShape(l, pos);
    var n := |l.digits|;
    if n > 0 && |l.digits[n - 1].segments| < DigitCapacity {
      AppendToLastKeepsValid(l, pos);
    } else {
      StartDigitKeepsValid(l, pos);
    }
  }

  /** Dropping the last segment of a last digit that holds more than one keeps the invariant. */
  lemma ShrinkLastKeepsValid(l: Layout)
    requires Valid(l) && |l.digits| > 0 && |l.history| > 0
    requires |l.digits[|l.digits| - 1].segments| > 1
    ensures Valid(RemoveLast(l))
  {
    var n, segs := |l.digits|, l.digits[|l.digits| - 1].segments;
    var d := Digit(l.digits[n - 1].id, segs[..|segs| - 1]);
    var ds := l.digits[n - 1 := d];
    var h := l.history[..|l.history| - 1];
    assert Flatten(ds) == h by {
      FlattenUpdateLast(l.digits, d);
      assert l.history == Flatten(l.digits[..n - 1]) + segs;
      assert h == Flatten(l.digits[..n - 1]) + segs[..|segs| - 1];
    }
    assert Numbered(h) by {
      assert forall i :: 0 <= i < |h| ==> h[i] == l.history[i];
    }
    assert Owned(ds) by {
      forall k, i | 0 <= k < |ds| && 0 <= i < |ds[k].segments|
        ensures ds[k].segments[i].digit == k
      {
        if k == n - 1 {
          assert ds[k].segments[i] == segs[i];
        } else {
          assert ds[k] == l.digits[k];
        }
      }
    }
  }

  /** Dropping a last digit that holds one segment, with that segment, keeps the invariant. */
  lemma DropLastKeepsValid(l: Layout)
    requires Valid(l) && |l.digits| > 0 && |l.history| > 0
    requires |l.digits[|l.digits| - 1].segments| == 1
    ensures Valid(RemoveLast(l))
  {
    var n, segs := |l.digits|, l.digits[|l.digits| - 1].segments;
    var h := l.history[..|l.history| - 1];
    assert Flatten(l.digits[..n - 1]) == h by {
      assert l.history == Flatten(l.digits[..n - 1]) + segs;
    }
    assert Numbered(h) by {
      assert forall i :: 0 <= i < |h| ==> h[i] == l.history[i];
    }
  }

  /** `removeLast` keeps the bookkeeping invariant. */
  lemma RemoveLastKeepsValid(l: Layout)
    requires Valid(l)
    ensures Valid(RemoveLast(l))
  {
    if |l.history| > 0 {
      HistoryHasDigits(l);
      if |l.digits[|l.digits| - 1].segments| > 1 {
        ShrinkLastKeepsValid(l);
      } else {
        DropLastKeepsValid(l);
      }
    }
  }

  lemma UndoAppendToLast(l: Layout, pos: Point)
    requires Valid(l)
    requires |l.digits| > 0 && |l.digits[|l.digits| - 1].segments| < DigitCapacity
    ensures var n, segs := |l.digits|, l.digits[|l.digits| - 1].segments;
      var seg := Segment(|l.history|, n - 1, pos);
      var r := Layout(l.digits[n - 1 := Digit(n - 1, segs + [seg])], l.history + [seg]);
      Valid(r) && RemoveLast(r) == l
  {
    var n, segs := |l.digits|, l.digits[|l.digits| - 1].segments;
    var seg := Segment(|l.history|, n - 1, pos);
    var r := Layout(l.digits[n - 1 := Digit(n - 1, segs + [seg])], l.history + [seg]);
    AppendToLastKeepsValid(l, pos);
    assert (segs + [seg])[..|segs|] == segs;
    assert r.digits[n - 1 := Digit(n - 1, segs)] == l.digits;
    assert r.history[..|r.history| - 1] == l.history;
  }

  lemma UndoStartDigit(l: Layout, pos: Point)
    requires Valid(l)
    requires |l.digits| == 0 || |l.digits[|l.digits| - 1].segments| == DigitCapacity
    ensures var seg := Segment(|l.history|, |l.digits|, pos);
      var r := Layout(l.digits + [Digit(|l.digits|, [seg])], l.history + [seg]);
      Valid(r) && RemoveLast(r) == l
  {
    var seg := Segment(|l.history|, |l.digits|, pos);
    var r := Layout(l.digits + [Digit(|l.digits|, [seg])], l.history + [seg]);
    StartDigitKeepsValid(l, pos);
    assert r.digits[..|l.digits|] == l.digits;
    assert r.history[..|r.history| - 1] == l.history;
  }

  /** `removeLast` right after `setSegment(pos)` restores the digits and the
      history exactly, dropping the digit the placement created, if any. */
  lemma RemoveLastUndoesSetSegment(l: Layout, pos: Point)
    requires Valid(l)
    ensures Valid(SetSegment(l, pos))
    ensures RemoveLast(SetSegment(l, pos)) == l
  {
    SetSegmentShape(l, pos);
    var n := |l.digits|;
    if n > 0 && |l.digits[n - 1].segments| < DigitCapacity {
      UndoAppendToLast(l, pos);
    } else {
      UndoStartDigit(l, pos);
    }
  }

  /** A valid layout has digits exactly when it has a history. */
  lemma HistoryHasDigits(l: Layout)
    requires Valid(l)
    ensures |l.digits| > 0 <==> |l.history| > 0
  {
    if |l.digits| > 0 {
      assert |l.digits[|l.digits| - 1].segments| > 0;
    }
  }

  /** With nothing placed there are no digits, and `removeLast` changes nothing. */
  lemma RemoveLastOnEmptyHistory(l: Layout)
    requires Valid(l) && l.history == []
    ensures l.digits == [] && RemoveLast(l) == l
  {
    HistoryHasDigits(l);
  }

  lemma {:induction false} CountFlatten(ds: seq<Digit>)
    ensures Count(ds) == |Flatten(ds)|
  {
    if |ds| > 0 {
      CountFlatten(ds[..|ds| - 1]);
    }
  }

  lemma {:induction false} FullDigitsFlatten(ds: seq<Digit>)
    requires forall k :: 0 <= k < |ds| ==> |ds[k].segments| == DigitCapacity
    ensures |Flatten(ds)| == DigitCapacity * |ds|
  {
    if |ds| > 0 {
      FullDigitsFlatten(ds[..|ds| - 1]);
    }
  }

  /** In a valid layout the digits hold as many segments as the history, and
      there are exactly ceil(|history| / 7) digits, the last holding the rest. */
  lemma DigitCountIsCeiling(l: Layout)
    requires Valid(l)
    ensures Count(l.digits) == |l.history|
    ensures |l.digits| == (|l.history| + DigitCapacity - 1) / DigitCapacity
    ensures |l.digits| > 0 ==>
      |l.digits[|l.digits| - 1].segments| == |l.history| - DigitCapacity * (|l.digits| - 1)
  {
    CountFlatten(l.digits);
    var n := |l.digits|;
    if n > 0 {
      FullDigitsFlatten(l.digits[..n - 1]);
      assert |l.history| == DigitCapacity * (n - 1) + |l.digits[n - 1].segments|;
    }
  }

  /** A run of `setSegment` calls, one per clicked position, in order. */
  function PlaceAll(l: Layout, ps: seq<Point>): Layout {
    if |ps| == 0 then l else SetSegment(PlaceAll(l, ps[..|ps| - 1]), ps[|ps| - 1])
  }

  /** Placing positions records them, in order, at the end of the history. */
  lemma {:induction false} PlaceAllRecords(l: Layout, ps: seq<Point>)
    ensures var r := PlaceAll(l, ps);
      && |r.history| == |l.history| + |ps|
      && r.history[..|l.history|] == l.history
      && forall i :: 0 <= i < |ps| ==> r.history[|l.history| + i].pos == ps[i]
  {
    if |ps| > 0 {
      var init := ps[..|ps| - 1];
      PlaceAllRecords(l, init);
      var m := PlaceAll(l, init);
      SetSegmentPlacesInFirstOpen(m, ps[|ps| - 1]);
      var r := PlaceAll(l, ps);
      assert r.history[..|m.history|] == m.history;
      forall i | 0 <= i < |ps|
        ensures r.history[|l.history| + i].pos == ps[i]
      {
        if i < |ps| - 1 {
          assert r.history[|l.history| + i] == m.history[|l.history| + i];
          assert init[i] == ps[i];
        }
      }
    }
  }

  /** Any run of placements keeps the bookkeeping invariant. */
  lemma {:induction false} PlaceAllKeepsValid(l: Layout, ps: seq<Point>)
    requires Valid(l)
    ensures Valid(PlaceAll(l, ps))
  {
    if |ps| > 0 {
      PlaceAllKeepsValid(l, ps[..|ps| - 1]);
      SetSegmentKeepsValid(PlaceAll(l, ps[..|ps| - 1]), ps[|ps| - 1]);
    }
  }

  /** `removeLast` pressed j times; while there is something to undo, each
      press forgets the most recent placement. */
  function UndoTimes(l: Layout, j: nat): (r: Layout)
    ensures j <= |l.history| ==> r.history == l.history[..|l.history| - j]
    decreases j
  {
    if j == 0 then l
    else
      var r := UndoTimes(RemoveLast(l), j - 1);
      if j <= |l.history| then
        assert RemoveLast(l).history[..|l.history| - 1 - (j - 1)] == l.history[..|l.history| - j];
        r
      else r
  }

  /** Any number of undos keeps the bookkeeping invariant. */
  lemma {:induction false} UndoTimesKeepsValid(l: Layout, j: nat)
    requires Valid(l)
    ensures Valid(UndoTimes(l, j))
    decreases j
  {
    if j > 0 {
      RemoveLastKeepsValid(l);
      UndoTimesKeepsValid(RemoveLast(l), j - 1);
    }
  }

  /** A valid layout with 7k segments is k full digits. */
  lemma WholeDigits(l: Layout, k: nat)
    requires Valid(l) && |l.history| == DigitCapacity * k
    ensures |l.digits| == k
    ensures forall i :: 0 <= i < k ==> |l.digits[i].segments| == DigitCapacity
  {
    DigitCountIsCeiling(l);
  }

  /** Placing 7k points from scratch gives exactly k digits, each with seven
      segments; 14 placements give two full digits. */
  lemma WholeDigitsFromPlacements(ps: seq<Point>, k: nat)
    requires |ps| == DigitCapacity * k
    ensures |PlaceAll(Empty, ps).digits| == k
    ensures forall i :: 0 <= i < k ==> |PlaceAll(Empty, ps).digits[i].segments| == DigitCapacity
  {
    PlaceAllRecords(Empty, ps);
    PlaceAllKeepsValid(Empty, ps);
    WholeDigits(PlaceAll(Empty, ps), k);
  }

  /** The digits of a valid layout hold its history in order: segment i of
      digit d is history entry 7d + i. */
  lemma {:induction false} DigitsHoldHistory(ds: seq<Digit>, d: nat, i: nat)
    requires WellSized(ds) && d < |ds| && i < |ds[d].segments|
    ensures DigitCapacity * d + i < |Flatten(ds)|
    ensures Flatten(ds)[DigitCapacity * d + i] == ds[d].segments[i]
    decreases |ds|
  {
    var n := |ds|;
    var init := ds[..n - 1];
    assert WellSized(init) by {
      assert forall k :: 0 <= k < |init| ==> init[k] == ds[k];
    }
    FullDigitsFlatten(init) by {
      assert forall k :: 0 <= k < |init| ==> init[k] == ds[k];
    }
    if d < n - 1 {
      assert init[d] == ds[d];
      DigitsHoldHistory(init, d, i);
    }
  }

  /** A valid layout whose history is the first 7k entries of h is k full
      digits holding those entries' positions in order. */
  lemma WholeDigitsHoldPrefix(r: Layout, h: seq<Segment>, ps: seq<Point>, k: nat)
    requires DigitCapacity * k <= |h| && DigitCapacity * k <= |ps|
    requires Valid(r) && r.history == h[..DigitCapacity * k]
    requires forall i :: 0 <= i < DigitCapacity * k ==> h[i].pos == ps[i]
    ensures |r.digits| == k
    ensures forall d :: 0 <= d < k ==> |r.digits[d].segments| == DigitCapacity
    ensures forall d, i :: 0 <= d < k && 0 <= i < DigitCapacity ==> r.digits[d].segments[i].pos == ps[DigitCapacity * d + i]
  {
    WholeDigits(r, k);
    forall d, i | 0 <= d < k && 0 <= i < DigitCapacity
      ensures r.digits[d].segments[i].pos == ps[DigitCapacity * d + i]
    {
      DigitsHoldHistory(r.digits, d, i);
      assert r.digits[d].segments[i] == r.history[DigitCapacity * d + i] == h[DigitCapacity * d + i];
    }
  }

  /** Undoing 7j of 7(k + j) recorded placements leaves k full digits
      holding the first 7k recorded positions in order. */
  lemma UndoToWholeDigits(full: Layout, ps: seq<Point>, k: nat, j: nat)
    requires |ps| == DigitCapacity * (k + j) && |full.history| == |ps|
    requires Valid(full)
    requires forall i :: 0 <= i < |ps| ==> full.history[i].pos == ps[i]
    ensures var r := UndoTimes(full, DigitCapacity * j);
      && |r.digits| == k
      && (forall d :: 0 <= d < k ==> |r.digits[d].segments| == DigitCapacity)
      && forall d, i :: 0 <= d < k && 0 <= i < DigitCapacity ==> r.digits[d].segments[i].pos == ps[DigitCapacity * d + i]
  {
    UndoTimesKeepsValid(full, DigitCapacity * j);
    WholeDigitsHoldPrefix(UndoTimes(full, DigitCapacity * j), full.history, ps, k);
  }

  /** Placing 7(k + j) points and then undoing 7j of them leaves k full digits
      holding the first 7k positions in order: fourteen placements then seven
      undos leave one full digit, and fourteen undos leave none. */
  lemma PlacementsThenUndo(ps: seq<Point>, k: nat, j: nat)
    requires |ps| == DigitCapacity * (k + j)
    ensures Valid(PlaceAll(Empty, ps))
    ensures var r := UndoTimes(PlaceAll(Empty, ps), DigitCapacity * j);
      && |r.digits| == k
      && (forall d :: 0 <= d < k ==> |r.digits[d].segments| == DigitCapacity)
      && forall d, i :: 0 <= d < k && 0 <= i < DigitCapacity ==> r.digits[d].segments[i].pos == ps[DigitCapacity * d + i]
  {
    PlaceAllRecords(Empty, ps);
    PlaceAllKeepsValid(Empty, ps);
    UndoToWholeDigits(PlaceAll(Empty, ps), ps, k, j);
  }
}
