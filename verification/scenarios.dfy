/** Concrete restaurants and deals taken from the controller's test cases,
    and a small peak-time example, with the outcomes the services give. */
module Scenarios {
  import opened Wrappers
  import opened Errors
  import opened TimeUtils
  import opened TimeWindows
  import opened TimeProperties
  import opened Domain
  import opened DealUtils
  import opened DealService
  import opened PeakTimeService

  // ---------------------------------------------------------------------------
  // The clock times the test cases use
  // ---------------------------------------------------------------------------

  lemma Reads9am(t: string)
    requires t == "9:00am"
    ensures ParseTime(Some(t)) == Success(540) && !IsBlank(Some(t))
  {
    NormalizeFixesPlainText(t);
    ParseNormalText(t);
  }

  lemma Reads10am(t: string)
    requires t == "10:00am"
    ensures ParseTime(Some(t)) == Success(600) && !IsBlank(Some(t))
  {
    NormalizeFixesPlainText(t);
    ParseNormalText(t);
  }

  lemma Reads11am(t: string)
    requires t == "11:00am"
    ensures ParseTime(Some(t)) == Success(660) && !IsBlank(Some(t))
  {
    NormalizeFixesPlainText(t);
    ParseNormalText(t);
  }

  lemma ReadsNoon(t: string)
    requires t == "12:00pm"
    ensures ParseTime(Some(t)) == Success(720) && !IsBlank(Some(t))
  {
    NormalizeFixesPlainText(t);
    ParseNormalText(t);
  }

  lemma Reads2pm(t: string)
    requires t == "2:00pm"
    ensures ParseTime(Some(t)) == Success(840) && !IsBlank(Some(t))
  {
    NormalizeFixesPlainText(t);
    ParseNormalText(t);
  }

  lemma Reads8pm(t: string)
    requires t == "8:00pm"
    ensures ParseTime(Some(t)) == Success(1200) && !IsBlank(Some(t))
  {
    NormalizeFixesPlainText(t);
    ParseNormalText(t);
  }

  lemma Reads10pm(t: string)
    requires t == "10:00pm"
    ensures ParseTime(Some(t)) == Success(1320) && !IsBlank(Some(t))
  {
    NormalizeFixesPlainText(t);
    ParseNormalText(t);
  }

  lemma Reads11pm(t: string)
    requires t == "11:00pm"
    ensures ParseTime(Some(t)) == Success(1380) && !IsBlank(Some(t))
  {
    NormalizeFixesPlainText(t);
    ParseNormalText(t);
  }

  lemma Reads1pm(t: string)
    requires t == "1:00pm"
    ensures ParseTime(Some(t)) == Success(780) && !IsBlank(Some(t))
  {
    NormalizeFixesPlainText(t);
    ParseNormalText(t);
  }

  lemma Reads3pm(t: string)
    requires t == "3:00pm"
    ensures ParseTime(Some(t)) == Success(900) && !IsBlank(Some(t))
  {
    NormalizeFixesPlainText(t);
    ParseNormalText(t);
  }

  lemma Reads18(t: string)
    requires t == "18:00"
    ensures ParseTime(Some(t)) == Success(1080) && !IsBlank(Some(t))
  {
    NormalizeFixesPlainText(t);
    ParseNormalText(t);
  }

  lemma QuantityFive(q: Option<string>)
    requires q == Some("5")
    ensures SafeTransInt(q) == 5
  {
    assert q.value[0] == '5' && q.value[1..] == [];
  }

  lemma QuantityZero(q: Option<string>)
    requires q == Some("0")
    ensures SafeTransInt(q) == 0
  {
  }

  // ---------------------------------------------------------------------------
  // The test data
  // ---------------------------------------------------------------------------

  function TestDeal(id: string, discount: string, qty: string, open: string, close: string): Deal {
    Deal(Some(id), Some(discount), Some("true"), Some("false"), Some(qty), Some(open), Some(close), None, None)
  }

  function TestRestaurant(id: string, name: string, address: string, suburb: string,
                          open: string, close: string, d: Deal): Restaurant {
    Restaurant(Some(id), Some(name), Some(address), Some(suburb), Some(open), Some(close), Some([Some(d)]))
  }

  /** One restaurant with one deal: its only pair. */
  lemma OnePair(r: Restaurant, d: Deal)
    requires r.deals == Some([Some(d)])
    ensures Pairs([Some(r)]) == [Pair(r, d)]
  {
    PairsSingle(Some(r));
    DealPairsSingle(r, Some(d));
  }

  /** A scan of one pair: its record when its deal holds `t`, nothing when it
      resolves without holding `t`. */
  lemma ScanOfOne(t: Minute, p: Pair)
    requires Resolves(p)
    ensures FilterActive(t, [p]) == Success(if ActiveAt(t, p) then [ToDealRecord(p.restaurant, p.deal)] else [])
  {
    VerdictMeaning(t, p);
    var vs := Verdicts(t, [p]);
    var recs := Records([p]);
    assert vs == [Verdict(t, p)];
    assert recs == [ToDealRecord(p.restaurant, p.deal)];
    assert vs[..0] == [] && recs[..0] == [];
    assert Keep(vs[..0], recs[..0]) == Success([]);
    assert vs[0].Success? && (vs[0].value <==> ActiveAt(t, p));
    var kept: seq<DealRecord> := [];
    assert Keep(vs, recs) == Success(kept + (if vs[0].value then [recs[0]] else []));
    assert kept + (if vs[0].value then [recs[0]] else []) ==
           (if ActiveAt(t, p) then [ToDealRecord(p.restaurant, p.deal)] else []);
    assert FilterActive(t, [p]) == Keep(vs, recs);
  }

  /** The query over a feed of one restaurant with one deal whose own hours
      are given by `open` and `close`: the deal's record exactly when it has
      stock and the query minute lies in both the restaurant's hours and the
      deal's. */
  lemma QueryOfOneDeal(time: string, t: Minute, r: Restaurant, d: Deal,
                       ro: Minute, rc: Minute, dopen: Minute, dclose: Minute)
    requires ParseTime(Some(time)) == Success(t)
    requires r.deals == Some([Some(d)])
    requires ParseTime(r.open) == Success(ro) && ParseTime(r.close) == Success(rc) && ro < rc
    requires !IsBlank(d.open) && ParseTime(d.open) == Success(dopen)
    requires !IsBlank(d.close) && ParseTime(d.close) == Success(dclose)
    requires d.start.None? && d.end.None? && dopen < dclose
    ensures QueryActiveDeals(Some(time), [Some(r)]) ==
            Success(if SafeTransInt(d.qtyLeft) > 0 && ro <= t < rc && dopen <= t < dclose then [ToDealRecord(r, d)] else [])
  {
    assert StartRule(r, d) == dopen && EndRule(r, d) == dclose;
    ActiveWindowSucceeds(r, d);
    ActiveWindowMinutes(r, d, t);
    OnePair(r, d);
    QueryScansPairs(Some(time), [Some(r)]);
    ScanOfOne(t, Pair(r, d));
  }

  // ---------------------------------------------------------------------------
  // The controller's test cases
  // ---------------------------------------------------------------------------

  /** A deal running 11:00am to 2:00pm, five left, at a restaurant open
      10:00am to 10:00pm: listed at 12:00pm with every field copied. */
  lemma DealListedInsideItsWindow(time: string, r: Restaurant, d: Deal)
    requires time == "12:00pm"
    requires d == TestDeal("deal-001", "30", "5", "11:00am", "2:00pm")
    requires r == TestRestaurant("rest-001", "Golden Dragon Restaurant", "123 Main Street", "Melbourne CBD",
                                 "10:00am", "10:00pm", d)
    ensures QueryActiveDeals(Some(time), [Some(r)]) == Success([
              DealRecord("rest-001", "Golden Dragon Restaurant", "123 Main Street", "Melbourne CBD",
                         "10:00am", "10:00pm", "deal-001", "30", "true", "false", "5")])
  {
    Reads10am(r.open.value);
    Reads10pm(r.close.value);
    Reads11am(d.open.value);
    Reads2pm(d.close.value);
    ReadsNoon(time);
    QuantityFive(d.qtyLeft);
    QueryOfOneDeal(time, 720, r, d, 600, 1320, 660, 840);
  }

  /** The same kind of deal asked about at 18:00: not listed. */
  lemma DealNotListedOutsideItsWindow(time: string, r: Restaurant, d: Deal)
    requires time == "18:00"
    requires d == TestDeal("deal-002", "25", "10", "11:00am", "2:00pm")
    requires r == TestRestaurant("rest-002", "Sakura Sushi", "456 High Street", "Fitzroy",
                                 "10:00am", "10:00pm", d)
    ensures QueryActiveDeals(Some(time), [Some(r)]) == Success([])
  {
    Reads10am(r.open.value);
    Reads10pm(r.close.value);
    Reads11am(d.open.value);
    Reads2pm(d.close.value);
    Reads18(time);
    QueryOfOneDeal(time, 1080, r, d, 600, 1320, 660, 840);
  }

  /** No restaurants, no deals. */
  lemma EmptyFeedListsNothing(time: string)
    requires time == "12:00pm"
    ensures QueryActiveDeals(Some(time), []) == Success([])
  {
    ReadsNoon(time);
    NoRestaurantsNoDeals(Some(time), []);
  }

  /** A sold-out deal (quantity "0") is not listed even inside its hours. */
  lemma SoldOutDealNotListed(time: string, r: Restaurant, d: Deal)
    requires time == "12:00pm"
    requires d == TestDeal("deal-003", "40", "0", "10:00am", "8:00pm")
    requires r == TestRestaurant("rest-003", "Pasta Palace", "789 Queen Street", "Richmond",
                                 "9:00am", "11:00pm", d)
    ensures QueryActiveDeals(Some(time), [Some(r)]) == Success([])
  {
    Reads9am(r.open.value);
    Reads11pm(r.close.value);
    Reads10am(d.open.value);
    Reads8pm(d.close.value);
    ReadsNoon(time);
    QuantityZero(d.qtyLeft);
    QueryOfOneDeal(time, 720, r, d, 540, 1380, 600, 1200);
  }

  /** "123456" is not a time: the query fails before the feed matters. */
  lemma MalformedTimeIsAnError(s: Snapshot)
    ensures QueryActiveDeals(Some("123456"), s).Failure?
  {
    RejectsDigitsOnly();
  }

  // ---------------------------------------------------------------------------
  // A peak
  // ---------------------------------------------------------------------------

  /** The labels of noon and of one o'clock in the afternoon. */
  lemma NoonAndOneLabels()
    ensures FormatTime(720) == Success("12:00pm")
    ensures FormatTime(780) == Success("1:00pm")
  {
    assert DigitChar(0) == '0' && DigitChar(1) == '1' && DigitChar(2) == '2';
    assert HourText(12) == "12" && HourText(1) == "1" && TwoDigitText(0) == "00";
    assert FormatTime(720) == Success(HourText(12) + ":" + TwoDigitText(0) + "pm");
    assert FormatTime(780) == Success(HourText(1) + ":" + TwoDigitText(0) + "pm");
    assert "12" + ":" + "00" + "pm" == "12:00pm";
    assert "1" + ":" + "00" + "pm" == "1:00pm";
  }

  /** One restaurant offering two deals: its two pairs, in list order. */
  lemma TwoPairs(r: Restaurant, d1: Deal, d2: Deal)
    requires r.deals == Some([Some(d1), Some(d2)])
    ensures Pairs([Some(r)]) == [Pair(r, d1), Pair(r, d2)]
  {
    PairsSingle(Some(r));
    assert [Some(d1), Some(d2)] == [Some(d1)] + [Some(d2)];
    DealPairsAppend(r, [Some(d1)], [Some(d2)]);
    DealPairsSingle(r, Some(d1));
    DealPairsSingle(r, Some(d2));
  }

  /** A deal with stock whose own hours lie inside the restaurant's is
      active for exactly its own hours. */
  lemma WindowOfTimedDeal(r: Restaurant, d: Deal, ro: Minute, rc: Minute, dopen: Minute, dclose: Minute)
    requires ParseTime(r.open) == Success(ro) && ParseTime(r.close) == Success(rc)
    requires !IsBlank(d.open) && ParseTime(d.open) == Success(dopen)
    requires !IsBlank(d.close) && ParseTime(d.close) == Success(dclose)
    requires d.start.None? && d.end.None?
    requires ro <= dopen < dclose <= rc && SafeTransInt(d.qtyLeft) > 0
    ensures ActiveWindowOfDeal(r, d) == Success(Some(Span(dopen, dclose)))
  {
    TimedDealFields(d, dopen, dclose);
    IntersectionInside(ro, rc, dopen, dclose);
  }

  lemma TimedDealFields(d: Deal, dopen: Minute, dclose: Minute)
    requires !IsBlank(d.open) && ParseTime(d.open) == Success(dopen)
    requires !IsBlank(d.close) && ParseTime(d.close) == Success(dclose)
    requires d.start.None? && d.end.None?
    ensures OptionalTime(d.open) == Success(Some(dopen)) && OptionalTime(d.start) == Success(None)
    ensures OptionalTime(d.close) == Success(Some(dclose)) && OptionalTime(d.end) == Success(None)
  {
  }

  lemma IntersectionInside(ro: Minute, rc: Minute, dopen: Minute, dclose: Minute)
    requires ro <= dopen < dclose <= rc
    ensures Intersection(Some(Span(ro, rc)), Some(Span(dopen, dclose))) == Some(Span(dopen, dclose))
  {
  }

  /** Two deals at a restaurant open 10:00am to 10:00pm, one running 11:00am
      to 1:00pm and one 12:00pm to 3:00pm: the peak is 12:00pm to 1:00pm,
      the only hour in which both are active. */
  method TwoDealsPeak(r0: Restaurant, d1: Deal, d2: Deal) returns (r: Result<PeakTime, Error>)
    requires d1 == TestDeal("deal-101", "20", "5", "11:00am", "1:00pm")
    requires d2 == TestDeal("deal-102", "15", "5", "12:00pm", "3:00pm")
    requires r0 == Restaurant(Some("rest-101"), Some("Noodle House"), Some("1 Collins Street"), Some("Melbourne CBD"),
                              Some("10:00am"), Some("10:00pm"), Some([Some(d1), Some(d2)]))
    ensures r == Success(PeakTime(Some("12:00pm"), Some("1:00pm")))
  {
    Reads10am(r0.open.value);
    Reads10pm(r0.close.value);
    Reads11am(d1.open.value);
    Reads1pm(d1.close.value);
    ReadsNoon(d2.open.value);
    Reads3pm(d2.close.value);
    QuantityFive(d1.qtyLeft);
    QuantityFive(d2.qtyLeft);
    WindowOfTimedDeal(r0, d1, 600, 1320, 660, 780);
    WindowOfTimedDeal(r0, d2, 600, 1320, 720, 900);
    TwoPairs(r0, d1, d2);
    var ws: seq<TimeWindow> := [Span(660, 780), Span(720, 900)];
    ResolutionsOfTwo(Pairs([Some(r0)]), Pair(r0, d1), Pair(r0, d2));
    TwoWindowsCollected(Pairs([Some(r0)]), ws);
    r := CalculatePeakTime([Some(r0)]);
    TwoWindowsPeak(ws);
    var a, b :| IsPeakRun(ws, a, b) && r.value == PeakTime(Some(FormatTime(a).value), Some(FormatTime(b).value));
    PeakRunUnique(ws, a, b, 720, 780);
    NoonAndOneLabels();
  }

  lemma TwoWindowsCollected(ps: seq<Pair>, ws: seq<TimeWindow>)
    requires |ws| == 2 && Resolutions(ps) == [Success(Some(ws[0])), Success(Some(ws[1]))]
    ensures ActiveWindows(ps) == Success(ws)
  {
    CollectPair(ws[0], ws[1]);
    assert [ws[0], ws[1]] == ws;
  }

  lemma ResolutionsOfTwo(ps: seq<Pair>, p1: Pair, p2: Pair)
    requires ps == [p1, p2]
    ensures Resolutions(ps) == [ActiveWindowOfDeal(p1.restaurant, p1.deal), ActiveWindowOfDeal(p2.restaurant, p2.deal)]
  {
  }

  lemma CollectPair(a: TimeWindow, b: TimeWindow)
    ensures CollectWindows([Success(Some(a)), Success(Some(b))]) == Success([a, b])
  {
    var rs: seq<Result<Option<TimeWindow>, Error>> := [Success(Some(a)), Success(Some(b))];
    var first: seq<Result<Option<TimeWindow>, Error>> := [Success(Some(a))];
    var none: seq<Result<Option<TimeWindow>, Error>> := [];
    assert rs[..1] == first && first[..0] == none;
    assert CollectWindows(none) == Success([]);
    assert CollectWindows(first) == Success([] + [a]);
    assert CollectWindows(rs) == Success([] + [a] + [b]);
    assert [] + [a] + [b] == [a, b];
  }

  lemma TwoWindowsPeak(ws: seq<TimeWindow>)
    requires ws == [Span(660, 780), Span(720, 900)]
    ensures IsPeakRun(ws, 720, 780)
  {
    assert ws[..1] == [Span(660, 780)] && ws[..1][..0] == [];
  }

  /** Two deals, 10:00am to 3:00pm and 12:00pm to 2:00pm: both are active
      from 12:00pm, and the peak ends at 2:00pm when the second closes. */
  method OverlappingDealsPeak() returns (start: int, end: int)
    ensures start == 720 && end == 840
  {
    var ws: seq<TimeWindow> := [Span(600, 900), Span(720, 840)];
    var found, peak, s, e := PeakMinutes(ws);
    assert Count(ws, 720) == 2;
    assert forall m :: 0 <= m < MinutesPerDay ==> Count(ws, m) <= 2;
    assert found;
    assert IsPeakRun(ws, 720, 840);
    PeakRunUnique(ws, s, e, 720, 840);
    start, end := s, e;
  }
}
