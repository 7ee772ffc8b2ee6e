/** Half-open time windows `[start, end)` over minutes of the day: checked
    construction, membership and intersection. */
module TimeWindows {
  import opened Wrappers
  import opened Errors
  import opened TimeUtils

  datatype Span = Span(start: Minute, end: Minute)

  /** A window: the minutes from `start` up to but excluding `end`. The
      record's constructor refuses an empty or reversed range, so every window
      holds at least one minute. */
  type TimeWindow = w: Span | w.start < w.end witness Span(0, 1)

  /** The record constructor: both bounds present and `start` strictly
      before `end`. */
  function NewWindow(start: Option<Minute>, end: Option<Minute>): (r: Result<TimeWindow, Error>)
    ensures r.Success? <==> start.Some? && end.Some? && start.value < end.value
    ensures r.Success? ==> r.value.start == start.value && r.value.end == end.value
    ensures start.None? || end.None? ==> r == Failure(MissingWindowBound)
    ensures start.Some? && end.Some? && start.value >= end.value ==> r == Failure(StartNotBeforeEnd)
  {
    if start.None? || end.None? then Failure(MissingWindowBound)
    else if !(start.value < end.value) then Failure(StartNotBeforeEnd)
    else Success(Span(start.value, end.value))
  }

  /** `isInWindow`: a null time is in no window. */
  predicate IsInWindow(w: TimeWindow, time: Option<Minute>) {
    time.Some? && w.start <= time.value < w.end
  }

  /** Membership in a window that may be absent (an absent window holds nothing). */
  predicate Covers(w: Option<TimeWindow>, time: Option<Minute>) {
    w.Some? && IsInWindow(w.value, time)
  }

  /** `windowIntersection`: the later start and the earlier end, provided the
      result is still a window; absent when either input is absent. */
  function Intersection(w1: Option<TimeWindow>, w2: Option<TimeWindow>): (r: Option<TimeWindow>)
    ensures r.Some? ==> w1.Some? && w2.Some?
    ensures r.Some? ==> w1.value.start <= r.value.start && w2.value.start <= r.value.start
    ensures r.Some? ==> r.value.end <= w1.value.end && r.value.end <= w2.value.end
  {
    if w1.None? || w2.None? then None
    else
      var start := if w1.value.start > w2.value.start then w1.value.start else w2.value.start;
      var end := if w1.value.end < w2.value.end then w1.value.end else w2.value.end;
      if start < end then Some(Span(start, end)) else None
  }

  // ---------------------------------------------------------------------------
  // Properties
  // ---------------------------------------------------------------------------

  /** The start minute belongs to a window and the end minute does not. */
  lemma BoundaryRule(w: TimeWindow)
    ensures IsInWindow(w, Some(w.start))
    ensures !IsInWindow(w, Some(w.end))
    ensures !IsInWindow(w, None)
  {
  }

  /** A minute is in the intersection exactly when it is in both windows. */
  lemma IntersectionPoints(w1: Option<TimeWindow>, w2: Option<TimeWindow>, t: Option<Minute>)
    ensures Covers(Intersection(w1, w2), t) <==> Covers(w1, t) && Covers(w2, t)
  {
  }

  /** The intersection is the one window whose minutes are those common to
      both inputs, and it is absent exactly when they share no minute. */
  lemma IntersectionUnique(w1: TimeWindow, w2: TimeWindow, w: TimeWindow)
    requires forall t: Minute :: IsInWindow(w, Some(t)) <==> IsInWindow(w1, Some(t)) && IsInWindow(w2, Some(t))
    ensures Intersection(Some(w1), Some(w2)) == Some(w)
  {
    var lo := if w1.start > w2.start then w1.start else w2.start;
    var hi := if w1.end < w2.end then w1.end else w2.end;
    assert IsInWindow(w, Some(w.start));
    assert IsInWindow(w, Some(w.end - 1));
    assert lo < hi;
    assert IsInWindow(w1, Some(lo)) && IsInWindow(w2, Some(lo));
    assert IsInWindow(w1, Some(hi - 1)) && IsInWindow(w2, Some(hi - 1));
  }

  lemma NoCommonMinuteNoIntersection(w1: TimeWindow, w2: TimeWindow)
    requires forall t: Minute :: !(IsInWindow(w1, Some(t)) && IsInWindow(w2, Some(t)))
    ensures Intersection(Some(w1), Some(w2)).None?
  {
    var lo := if w1.start > w2.start then w1.start else w2.start;
    assert !(IsInWindow(w1, Some(lo)) && IsInWindow(w2, Some(lo)));
  }

  /** Intersection does not depend on the order of its arguments. */
  lemma IntersectionCommutes(w1: Option<TimeWindow>, w2: Option<TimeWindow>)
    ensures Intersection(w1, w2) == Intersection(w2, w1)
  {
  }

  /** Windows that only touch, one ending where the other starts, share no minute. */
  lemma TouchingWindowsDoNotIntersect(w1: TimeWindow, w2: TimeWindow)
    requires w1.end == w2.start
    ensures Intersection(Some(w1), Some(w2)) == None
  {
  }

  /** An absent argument gives no intersection. */
  lemma IntersectionWithAbsent(w: Option<TimeWindow>)
    ensures Intersection(w, None) == None && Intersection(None, w) == None
  {
  }

  /** A window intersected with itself is itself. */
  lemma IntersectionIdempotent(w: TimeWindow)
    ensures Intersection(Some(w), Some(w)) == Some(w)
  {
  }
}
