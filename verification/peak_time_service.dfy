/** The peak-time computation: resolve every restaurant/deal pair of the
    snapshot to its active window, count the windows holding each minute of
    the day with a delta array and a running sum, and report the first run of
    minutes at the largest count. */
module PeakTimeService {
  import opened Wrappers
  import opened Errors
  import opened TimeUtils
  import opened TimeWindows
  import opened Domain
  import opened DealUtils
  import opened DealService

  // ---------------------------------------------------------------------------
  // Collecting the active windows
  // ---------------------------------------------------------------------------

  /** The resolution of each pair, in pair order. */
  function Resolutions(ps: seq<Pair>): (rs: seq<Result<Option<TimeWindow>, Error>>)
    ensures |rs| == |ps|
  {
    seq(|ps|, i requires 0 <= i < |ps| => ActiveWindowOfDeal(ps[i].restaurant, ps[i].deal))
  }

  /** The sweep's first loop, without the array: the windows of the pairs
      that resolve to one, in order; the first resolution error aborts. */
  function CollectWindows(rs: seq<Result<Option<TimeWindow>, Error>>): (r: Result<seq<TimeWindow>, Error>)
    ensures r.Success? <==> forall i :: 0 <= i < |rs| ==> rs[i].Success?
    ensures r.Success? ==> |r.value| <= |rs|
    ensures r.Failure? ==> exists i :: FirstFailure(rs, i) && r.error == rs[i].error
  {
    if rs == [] then Success([])
    else
      var n := |rs| - 1;
      assert forall i :: 0 <= i < n ==> rs[..n][i] == rs[i];
      var init :- CollectWindows(rs[..n]);
      var w :- rs[n];
      Success(init + (if w.Some? then [w.value] else []))
  }

  /** The active windows of a run of pairs. */
  function ActiveWindows(ps: seq<Pair>): (r: Result<seq<TimeWindow>, Error>)
    ensures r.Success? <==> forall i :: 0 <= i < |ps| ==> Resolves(ps[i])
    ensures r.Success? ==> |r.value| <= |ps|
  {
    assert forall i :: 0 <= i < |ps| ==> Resolutions(ps)[i] == ActiveWindowOfDeal(ps[i].restaurant, ps[i].deal);
    CollectWindows(Resolutions(ps))
  }

  /** The collected windows are exactly the windows some pair resolves to. */
  lemma {:induction false} CollectMembership(rs: seq<Result<Option<TimeWindow>, Error>>, w: TimeWindow)
    requires CollectWindows(rs).Success?
    ensures w in CollectWindows(rs).value <==> exists i :: 0 <= i < |rs| && rs[i] == Success(Some(w))
  {
    if rs != [] {
      var n := |rs| - 1;
      CollectMembership(rs[..n], w);
      assert forall i :: 0 <= i < n ==> rs[..n][i] == rs[i];
    }
  }

  /** Nothing is collected exactly when every pair resolves to "inactive". */
  lemma {:induction false} CollectEmpty(rs: seq<Result<Option<TimeWindow>, Error>>)
    requires CollectWindows(rs).Success?
    ensures CollectWindows(rs).value == [] <==> forall i :: 0 <= i < |rs| ==> rs[i].value.None?
  {
    if rs != [] {
      var n := |rs| - 1;
      CollectEmpty(rs[..n]);
      assert forall i :: 0 <= i < n ==> rs[..n][i] == rs[i];
    }
  }

  // ---------------------------------------------------------------------------
  // Counting
  // ---------------------------------------------------------------------------

  /** Number of windows holding minute `m`. */
  function Count(ws: seq<TimeWindow>, m: int): (c: nat)
    ensures c <= |ws|
  {
    if ws == [] then 0
    else
      var n := |ws| - 1;
      Count(ws[..n], m) + (if ws[n].start <= m < ws[n].end then 1 else 0)
  }

  /** Number of windows starting at minute `m`. */
  function Opening(ws: seq<TimeWindow>, m: int): nat {
    if ws == [] then 0
    else
      var n := |ws| - 1;
      Opening(ws[..n], m) + (if ws[n].start == m then 1 else 0)
  }

  /** Number of windows ending at minute `m`. */
  function Closing(ws: seq<TimeWindow>, m: int): nat {
    if ws == [] then 0
    else
      var n := |ws| - 1;
      Closing(ws[..n], m) + (if ws[n].end == m then 1 else 0)
  }

  /** The running sum of the delta array: the count at a minute is the count
      at the minute before, plus the windows opening, less those closing. */
  lemma {:induction false} CountStep(ws: seq<TimeWindow>, m: int)
    ensures Count(ws, m) == Count(ws, m - 1) + Opening(ws, m) - Closing(ws, m)
  {
    if ws != [] {
      CountStep(ws[..|ws| - 1], m);
    }
  }

  /** No window holds a minute before midnight. */
  lemma {:induction false} CountBeforeMidnight(ws: seq<TimeWindow>)
    ensures Count(ws, -1) == 0
  {
    if ws != [] {
      CountBeforeMidnight(ws[..|ws| - 1]);
    }
  }

  /** No window holds 23:59: a window's end is itself a minute of the day,
      so its last minute is at most 23:58. */
  lemma {:induction false} CountAtLastMinute(ws: seq<TimeWindow>)
    ensures Count(ws, MinutesPerDay - 1) == 0
  {
    if ws != [] {
      CountAtLastMinute(ws[..|ws| - 1]);
    }
  }

  /** Every window holds its own start minute. */
  lemma {:induction false} CountAtStart(ws: seq<TimeWindow>, i: int)
    requires 0 <= i < |ws|
    ensures Count(ws, ws[i].start) >= 1
  {
    var n := |ws| - 1;
    if i < n {
      CountAtStart(ws[..n], i);
    }
  }

  /** The count equals the number of windows holding the minute, stated
      without recursion: it is the size of the set of their positions. */
  lemma {:induction false} CountIsCardinality(ws: seq<TimeWindow>, m: int)
    ensures Count(ws, m) == |set i | 0 <= i < |ws| && ws[i].start <= m < ws[i].end|
  {
    if ws != [] {
      var n := |ws| - 1;
      CountIsCardinality(ws[..n], m);
      var before := set i | 0 <= i < n && ws[..n][i].start <= m < ws[..n][i].end;
      var all := set i | 0 <= i < |ws| && ws[i].start <= m < ws[i].end;
      assert before == set i | 0 <= i < n && ws[i].start <= m < ws[i].end;
      if ws[n].start <= m < ws[n].end {
        assert all == before + {n};
      } else {
        assert all == before;
      }
    }
  }

  // ---------------------------------------------------------------------------
  // The peak run
  // ---------------------------------------------------------------------------

  /** `[start, end)` is the first run of minutes at the largest count: the
      count at `start` is the largest of the day and is reached no earlier,
      it holds on every minute up to `end`, and `end` is the first minute
      after `start` where it changes. */
  predicate IsPeakRun(ws: seq<TimeWindow>, start: int, end: int) {
    && 0 <= start < end < MinutesPerDay
    && (forall m :: 0 <= m < MinutesPerDay ==> Count(ws, m) <= Count(ws, start))
    && (forall m :: 0 <= m < start ==> Count(ws, m) < Count(ws, start))
    && (forall m :: start <= m < end ==> Count(ws, m) == Count(ws, start))
    && Count(ws, end) != Count(ws, start)
  }

  /** There is at most one first peak run. */
  lemma PeakRunUnique(ws: seq<TimeWindow>, s1: int, e1: int, s2: int, e2: int)
    requires IsPeakRun(ws, s1, e1) && IsPeakRun(ws, s2, e2)
    ensures s1 == s2 && e1 == e2
  {
  }

  /** `delta[m]` is the change in the count at minute `m`: the windows
      opening there less the windows closing there. */
  predicate IsDeltaOf(ws: seq<TimeWindow>, delta: seq<int>) {
    && |delta| == MinutesPerDay
    && forall m :: 0 <= m < MinutesPerDay ==> delta[m] == Opening(ws, m) - Closing(ws, m)
  }

  /** The change array: one more deal at each window's start, one fewer at
      its end. Every index written lies inside the array because a window's
      bounds are minutes of the day. */
  method BuildDelta(ws: seq<TimeWindow>) returns (delta: seq<int>)
    ensures IsDeltaOf(ws, delta)
  {
    var change := new int[MinutesPerDay](_ => 0);
    var k := 0;
    while k < |ws|
      invariant 0 <= k <= |ws|
      invariant forall m :: 0 <= m < MinutesPerDay ==> change[m] == Opening(ws[..k], m) - Closing(ws[..k], m)
    {
      var w := ws[k];
      change[w.start] := change[w.start] + 1;
      change[w.end] := change[w.end] - 1;
      assert ws[..k + 1][..k] == ws[..k];
      k := k + 1;
    }
    assert ws[..|ws|] == ws;
    delta := change[..];
  }

  /** The first pass: the running sum of the change array reaches, minute by
      minute, the count of windows holding that minute; `peak` is the
      largest of those counts, and 0 when every count is 0. */
  method MaxCount(ws: seq<TimeWindow>, delta: seq<int>) returns (peak: int)
    requires IsDeltaOf(ws, delta)
    ensures peak >= 0
    ensures forall m :: 0 <= m < MinutesPerDay ==> Count(ws, m) <= peak
    ensures peak == 0 || exists m :: 0 <= m < MinutesPerDay && Count(ws, m) == peak
  {
    CountBeforeMidnight(ws);
    var current := 0;
    peak := 0;
    var i := 0;
    while i < MinutesPerDay
      invariant 0 <= i <= MinutesPerDay
      invariant current == Count(ws, i - 1)
      invariant peak >= 0
      invariant forall m :: 0 <= m < i ==> Count(ws, m) <= peak
      invariant peak == 0 || exists m :: 0 <= m < i && Count(ws, m) == peak
    {
      CountStep(ws, i);
      current := current + delta[i];
      if current > peak {
        peak := current;
      }
      i := i + 1;
    }
  }

  /** The second pass: the first minute whose count is `peak` starts the run,
      and the first later minute whose count differs ends it. The run always
      ends before 23:59, whose count is 0. */
  method FirstPeakRun(ws: seq<TimeWindow>, delta: seq<int>, peak: int) returns (start: int, end: int)
    requires IsDeltaOf(ws, delta)
    requires peak > 0
    requires forall m :: 0 <= m < MinutesPerDay ==> Count(ws, m) <= peak
    requires exists m :: 0 <= m < MinutesPerDay && Count(ws, m) == peak
    ensures IsPeakRun(ws, start, end) && Count(ws, start) == peak
  {
    CountBeforeMidnight(ws);
    CountAtLastMinute(ws);
    start := -1;
    end := -1;
    var current := 0;
    var i := 0;
    while i < MinutesPerDay
      invariant 0 <= i <= MinutesPerDay
      invariant current == Count(ws, i - 1)
      invariant end == -1
      invariant start == -1 ==> forall m :: 0 <= m < i ==> Count(ws, m) != peak
      invariant start != -1 ==> 0 <= start < i && Count(ws, start) == peak
      invariant start != -1 ==> forall m :: 0 <= m < start ==> Count(ws, m) != peak
      invariant start != -1 ==> forall m :: start <= m < i ==> Count(ws, m) == peak
    {
      CountStep(ws, i);
      current := current + delta[i];
      var isPeak := current == peak;
      if isPeak && start == -1 {
        start := i;
      }
      if !isPeak && start >= 0 {
        end := i;
        break;
      }
      i := i + 1;
    }
    if end == -1 {
      assert false;
    }
  }

  /** The sweep of `calculatePeakTime` over the collected windows: `peak` is
      the largest number of windows holding one minute (0 when there are
      none); when it is positive, `[start, end)` is the first run at that
      number, and otherwise both bounds keep their initial -1. */
  method PeakMinutes(ws: seq<TimeWindow>) returns (found: bool, peak: int, start: int, end: int)
    ensures peak >= 0
    ensures forall m :: 0 <= m < MinutesPerDay ==> Count(ws, m) <= peak
    ensures peak == 0 || exists m :: 0 <= m < MinutesPerDay && Count(ws, m) == peak
    ensures found <==> peak > 0
    ensures found <==> |ws| > 0
    ensures found ==> IsPeakRun(ws, start, end) && Count(ws, start) == peak
    ensures !found ==> start == -1 && end == -1
  {
    var delta := BuildDelta(ws);
    peak := MaxCount(ws, delta);
    if |ws| > 0 {
      CountAtStart(ws, 0);
    }
    if peak == 0 {
      return false, peak, -1, -1;
    }
    found := true;
    start, end := FirstPeakRun(ws, delta, peak);
  }

  // ---------------------------------------------------------------------------
  // calculatePeakTime
  // ---------------------------------------------------------------------------

  /** The response: both labels present, or both absent when no deal is
      active at any minute. */
  datatype PeakTime = PeakTime(peakTimeStart: Option<string>, peakTimeEnd: Option<string>)

  const NoPeak := PeakTime(None, None)

  /** `calculatePeakTime`: the first peak run of the snapshot's active
      windows, as `h:mma` labels. */
  method CalculatePeakTime(s: Snapshot) returns (r: Result<PeakTime, Error>)
    ensures r.Success? <==> ActiveWindows(Pairs(s)).Success?
    ensures r.Failure? ==> r.error == ActiveWindows(Pairs(s)).error
    ensures r.Success? ==> (r.value == NoPeak <==> ActiveWindows(Pairs(s)).value == [])
    ensures r.Success? && r.value != NoPeak ==>
              exists a, b :: IsPeakRun(ActiveWindows(Pairs(s)).value, a, b) &&
                             r.value == PeakTime(Some(FormatTime(a).value), Some(FormatTime(b).value))
  {
    var windows := ActiveWindows(Pairs(s));
    if windows.Failure? {
      return Failure(windows.error);
    }
    var found, peak, start, end := PeakMinutes(windows.value);
    if !found {
      return Success(NoPeak);
    }
    var startLabel := FormatTime(start);
    var endLabel := FormatTime(end);
    r := Success(PeakTime(Some(startLabel.value), Some(endLabel.value)));
  }

  // ---------------------------------------------------------------------------
  // Agreement with the active-deal query
  // ---------------------------------------------------------------------------

  /** What the query learns about one pair from its resolution. */
  function VerdictOf(res: Result<Option<TimeWindow>, Error>, t: Minute): Result<bool, Error> {
    if res.Failure? then Failure(res.error) else Success(Covers(res.value, Some(t)))
  }

  lemma KeepLast<T>(vs: seq<Result<bool, Error>>, items: seq<T>)
    requires |vs| == |items| && vs != []
    requires Keep(vs, items).Success?
    ensures Keep(vs[..|vs| - 1], items[..|vs| - 1]).Success?
    ensures |Keep(vs, items).value| ==
            |Keep(vs[..|vs| - 1], items[..|vs| - 1]).value| + (if vs[|vs| - 1].value then 1 else 0)
  {
  }

  /** Adding one window adds one to the count at the minutes it holds. */
  lemma CountSnoc(ws: seq<TimeWindow>, w: TimeWindow, m: int)
    ensures Count(ws + [w], m) == Count(ws, m) + (if w.start <= m < w.end then 1 else 0)
  {
    assert (ws + [w])[..|ws|] == ws;
  }

  lemma CollectLast(rs: seq<Result<Option<TimeWindow>, Error>>, t: Minute)
    requires rs != [] && CollectWindows(rs).Success?
    ensures CollectWindows(rs[..|rs| - 1]).Success?
    ensures Count(CollectWindows(rs).value, t) ==
            Count(CollectWindows(rs[..|rs| - 1]).value, t) + (if Covers(rs[|rs| - 1].value, Some(t)) then 1 else 0)
  {
    var n := |rs| - 1;
    assert forall i :: 0 <= i < n ==> rs[..n][i] == rs[i];
    var init := CollectWindows(rs[..n]).value;
    if rs[n].value.Some? {
      var w := rs[n].value.value;
      assert CollectWindows(rs).value == init + [w];
      CountSnoc(init, w, t);
    } else {
      assert CollectWindows(rs).value == init;
    }
  }

  lemma {:induction false} KeepCountsWindows<T>(rs: seq<Result<Option<TimeWindow>, Error>>,
                                               vs: seq<Result<bool, Error>>, items: seq<T>, t: Minute)
    requires |rs| == |vs| == |items|
    requires forall i :: 0 <= i < |rs| ==> vs[i] == VerdictOf(rs[i], t)
    requires CollectWindows(rs).Success?
    ensures Keep(vs, items).Success?
    ensures |Keep(vs, items).value| == Count(CollectWindows(rs).value, t)
  {
    if rs != [] {
      var n := |rs| - 1;
      assert forall i :: 0 <= i < n ==> vs[..n][i] == VerdictOf(rs[..n][i], t);
      KeepCountsWindows(rs[..n], vs[..n], items[..n], t);
      KeepLast(vs, items);
      CollectLast(rs, t);
    }
  }

  /** The sweep and the query agree: at every minute, the number of deals the
      query lists is the number of collected windows holding that minute. */
  lemma CountMatchesQuery(t: Minute, ps: seq<Pair>)
    requires forall i :: 0 <= i < |ps| ==> Resolves(ps[i])
    ensures ActiveWindows(ps).Success? && FilterActive(t, ps).Success?
    ensures |FilterActive(t, ps).value| == Count(ActiveWindows(ps).value, t)
  {
    var rs := Resolutions(ps);
    var vs := Verdicts(t, ps);
    assert forall i :: 0 <= i < |rs| ==> rs[i].Success?;
    forall i | 0 <= i < |ps|
      ensures vs[i] == VerdictOf(rs[i], t)
    {
      VerdictMeaning(t, ps[i]);
    }
    KeepCountsWindows(rs, vs, Records(ps), t);
  }
}
