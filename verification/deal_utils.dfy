/** A deal's effective window: restaurant hours, the deal's own time fields
    and its remaining quantity, combined into one window or "inactive". Both
    services read deal activity through this module and nothing else. */
module DealUtils {
  import opened Wrappers
  import opened Errors
  import opened TimeUtils
  import opened TimeWindows
  import opened Domain

  // ---------------------------------------------------------------------------
  // safeTransInt
  // ---------------------------------------------------------------------------

  const IntMin: int := -0x8000_0000
  const IntMax: int := 0x7fff_ffff

  predicate AllDigits(s: string) {
    forall i :: 0 <= i < |s| ==> IsDigit(s[i])
  }

  /** Decimal value of a run of digits, most significant first. */
  function DigitsValue(s: string): nat
    requires AllDigits(s)
  {
    if s == [] then 0 else 10 * DigitsValue(s[..|s| - 1]) + DigitValue(s[|s| - 1])
  }

  /** `Integer.parseInt` in base 10: an optional sign, then at least one
      digit, and a value that fits in 32 bits; `None` where it throws. */
  function ParseInt(s: Option<string>): (r: Option<int>)
    ensures r.Some? ==> IntMin <= r.value <= IntMax
  {
    if s.None? || s.value == [] then None
    else
      var text := s.value;
      var digits := if text[0] == '-' || text[0] == '+' then text[1..] else text;
      if digits == [] || !AllDigits(digits) then None
      else
        var v: int := if text[0] == '-' then -(DigitsValue(digits) as int) else DigitsValue(digits);
        if IntMin <= v <= IntMax then Some(v) else None
  }

  /** `safeTransInt`: the parsed value, or 0 wherever parsing throws. */
  function SafeTransInt(s: Option<string>): (r: int)
    ensures IntMin <= r <= IntMax
    ensures ParseInt(s).Some? ==> r == ParseInt(s).value
    ensures ParseInt(s).None? ==> r == 0
  {
    match ParseInt(s)
    case Some(v) => v
    case None => 0
  }

  /** Decimal text of a natural number, without leading zeros. */
  function NatText(n: nat): (r: string)
    ensures r != [] && AllDigits(r)
  {
    if n < 10 then [DigitChar(n)] else NatText(n / 10) + [DigitChar(n % 10)]
  }

  /** Decimal text of an integer, with a minus sign when negative. */
  function IntText(n: int): string {
    if n < 0 then "-" + NatText(-n) else NatText(n)
  }

  lemma {:induction false} NatTextValue(n: nat)
    ensures DigitsValue(NatText(n)) == n
  {
    if n >= 10 {
      NatTextValue(n / 10);
      var t := NatText(n);
      assert t[..|t| - 1] == NatText(n / 10);
    }
  }

  /** Every 32-bit integer survives printing and parsing. */
  lemma ParseIntRoundTrip(n: int)
    requires IntMin <= n <= IntMax
    ensures ParseInt(Some(IntText(n))) == Some(n)
    ensures SafeTransInt(Some(IntText(n))) == n
  {
    if n < 0 {
      NatTextValue(-n);
      assert ("-" + NatText(-n))[1..] == NatText(-n);
    } else {
      NatTextValue(n);
    }
  }

  /** A numeral above the 32-bit range is not a number: it counts as 0. */
  lemma OutOfRangeIsZero(n: nat)
    requires n > IntMax
    ensures ParseInt(Some(NatText(n))).None?
    ensures SafeTransInt(Some(NatText(n))) == 0
  {
    NatTextValue(n);
  }

  /** A negative numeral below the 32-bit range counts as 0 too. */
  lemma BelowRangeIsZero(n: nat)
    requires n > -IntMin
    ensures ParseInt(Some("-" + NatText(n))).None?
    ensures SafeTransInt(Some("-" + NatText(n))) == 0
  {
    NatTextValue(n);
    assert ("-" + NatText(n))[1..] == NatText(n);
  }

  /** Text that is not an optional sign followed by digits alone: empty, a
      bare sign, or some character other than a leading sign that is not a
      digit. */
  predicate NotANumeral(text: string) {
    || text == [] || text == "-" || text == "+"
    || exists i :: 0 <= i < |text| && !IsDigit(text[i]) && !(i == 0 && (text[0] == '-' || text[0] == '+'))
  }

  /** Null, empty and non-numeric quantities count as 0. */
  lemma NonNumericIsZero(s: Option<string>)
    requires s.None? || NotANumeral(s.value)
    ensures ParseInt(s).None?
    ensures SafeTransInt(s) == 0
  {
    if s.Some? && s.value != [] && s.value != "-" && s.value != "+" {
      var text := s.value;
      var i :| 0 <= i < |text| && !IsDigit(text[i]) && !(i == 0 && (text[0] == '-' || text[0] == '+'));
      if text[0] == '-' || text[0] == '+' {
        assert text[1..][i - 1] == text[i];
      } else {
        assert !AllDigits(text);
      }
    }
  }

  // ---------------------------------------------------------------------------
  // Resolving one deal
  // ---------------------------------------------------------------------------

  /** A deal time field: blank counts as absent, anything else must parse. */
  function OptionalTime(s: Option<string>): (r: Result<Option<Minute>, Error>)
    ensures r == Success(None) <==> IsBlank(s)
    ensures r.Failure? <==> !IsBlank(s) && ParseTime(s).Failure?
    ensures r.Success? && r.value.Some? ==> ParseTime(s) == Success(r.value.value)
  {
    if IsBlank(s) then Success(None)
    else
      var m :- ParseTime(s);
      Success(Some(m))
  }

  function AsSet(m: Option<Minute>): set<Minute> {
    if m.Some? then {m.value} else {}
  }

  /** The bounds a pair of optional fields offers, or the fallback when
      neither field is present. */
  function Candidates(a: Option<Minute>, b: Option<Minute>, fallback: Minute): set<Minute> {
    if a.None? && b.None? then {fallback} else AsSet(a) + AsSet(b)
  }

  /** The deal's start: the latest of its candidates. */
  function LaterOf(a: Option<Minute>, b: Option<Minute>, fallback: Minute): (r: Minute)
    ensures r in Candidates(a, b, fallback)
    ensures forall x :: x in Candidates(a, b, fallback) ==> x <= r
  {
    match (a, b)
    case (None, Some(y)) => y
    case (Some(x), None) => x
    case (Some(x), Some(y)) => if x > y then x else y
    case (None, None) => fallback
  }

  /** The deal's end: the earliest of its candidates. */
  function EarlierOf(a: Option<Minute>, b: Option<Minute>, fallback: Minute): (r: Minute)
    ensures r in Candidates(a, b, fallback)
    ensures forall x :: x in Candidates(a, b, fallback) ==> r <= x
  {
    match (a, b)
    case (None, Some(y)) => y
    case (Some(x), None) => x
    case (Some(x), Some(y)) => if x < y then x else y
    case (None, None) => fallback
  }

  /** The restaurant's hours parse and open strictly before they close. */
  predicate HoursValid(r: Restaurant) {
    && ParseTime(r.open).Success?
    && ParseTime(r.close).Success?
    && ParseTime(r.open).value < ParseTime(r.close).value
  }

  function RestaurantWindow(r: Restaurant): TimeWindow
    requires HoursValid(r)
  {
    Span(ParseTime(r.open).value, ParseTime(r.close).value)
  }

  /** Each deal time field is blank or parses. */
  predicate DealTimesParse(d: Deal) {
    && OptionalTime(d.open).Success?
    && OptionalTime(d.start).Success?
    && OptionalTime(d.close).Success?
    && OptionalTime(d.end).Success?
  }

  predicate NoDealTimes(d: Deal) {
    IsBlank(d.open) && IsBlank(d.start) && IsBlank(d.close) && IsBlank(d.end)
  }

  /** `getActiveWindowOfDeal`: the deal's window clipped to the restaurant's
      hours, or `None` when they do not overlap or the quantity is not
      positive. Bad restaurant hours, a malformed deal time or a deal whose
      own start is not before its end abort with an error. */
  function ActiveWindowOfDeal(r: Restaurant, d: Deal): (res: Result<Option<TimeWindow>, Error>)
    ensures res.Success? ==> HoursValid(r) && DealTimesParse(d)
    ensures res.Success? && res.value.Some? ==> SafeTransInt(d.qtyLeft) > 0
    ensures res.Success? && res.value.Some? ==>
              ParseTime(r.open).value <= res.value.value.start && res.value.value.end <= ParseTime(r.close).value
  {
    var restaurantOpen :- ParseTime(r.open);
    var restaurantClose :- ParseTime(r.close);
    var restaurantWindow :- NewWindow(Some(restaurantOpen), Some(restaurantClose));
    var dealOpen :- OptionalTime(d.open);
    var dealStart :- OptionalTime(d.start);
    var startResult := LaterOf(dealOpen, dealStart, restaurantOpen);
    var dealClose :- OptionalTime(d.close);
    var dealEnd :- OptionalTime(d.end);
    var endResult := EarlierOf(dealClose, dealEnd, restaurantClose);
    var dealWindow :- NewWindow(Some(startResult), Some(endResult));
    var effective := Intersection(Some(restaurantWindow), Some(dealWindow));
    if SafeTransInt(d.qtyLeft) > 0 then Success(effective) else Success(None)
  }

  /** `isActiveDealContainsTime`: the resolved window exists and holds `time`. */
  function IsActiveDealContainsTime(time: Minute, r: Restaurant, d: Deal): (res: Result<bool, Error>)
    ensures res.Success? <==> ActiveWindowOfDeal(r, d).Success?
    ensures res.Success? ==> (res.value <==> Covers(ActiveWindowOfDeal(r, d).value, Some(time)))
  {
    var effective :- ActiveWindowOfDeal(r, d);
    if effective.None? then Success(false) else Success(IsInWindow(effective.value, Some(time)))
  }

  // ---------------------------------------------------------------------------
  // The resolver's decision table, stated independently
  // ---------------------------------------------------------------------------

  function Max(a: Minute, b: Minute): Minute { if a >= b then a else b }
  function Min(a: Minute, b: Minute): Minute { if a <= b then a else b }

  /** The deal's start as the resolver's comments describe it: the later of
      `open` and `start` when both are given, the one given otherwise, the
      restaurant's opening time when neither is. */
  function StartRule(r: Restaurant, d: Deal): Minute
    requires HoursValid(r) && DealTimesParse(d)
  {
    if !IsBlank(d.open) && !IsBlank(d.start) then Max(ParseTime(d.open).value, ParseTime(d.start).value)
    else if !IsBlank(d.open) then ParseTime(d.open).value
    else if !IsBlank(d.start) then ParseTime(d.start).value
    else ParseTime(r.open).value
  }

  /** The deal's end: the earlier of `close` and `end`, falling back to the
      restaurant's closing time. */
  function EndRule(r: Restaurant, d: Deal): Minute
    requires HoursValid(r) && DealTimesParse(d)
  {
    if !IsBlank(d.close) && !IsBlank(d.end) then Min(ParseTime(d.close).value, ParseTime(d.end).value)
    else if !IsBlank(d.close) then ParseTime(d.close).value
    else if !IsBlank(d.end) then ParseTime(d.end).value
    else ParseTime(r.close).value
  }

  /** The candidate-set resolution agrees with the decision table. */
  lemma ResolvedBounds(r: Restaurant, d: Deal)
    requires HoursValid(r) && DealTimesParse(d)
    ensures LaterOf(OptionalTime(d.open).value, OptionalTime(d.start).value, ParseTime(r.open).value) == StartRule(r, d)
    ensures EarlierOf(OptionalTime(d.close).value, OptionalTime(d.end).value, ParseTime(r.close).value) == EndRule(r, d)
  {
  }

  /** Resolution succeeds exactly when the restaurant's hours are valid, every
      non-blank deal time parses, and the deal's own start is before its end. */
  lemma ActiveWindowSucceeds(r: Restaurant, d: Deal)
    ensures ActiveWindowOfDeal(r, d).Success? <==>
              HoursValid(r) && DealTimesParse(d) && StartRule(r, d) < EndRule(r, d)
  {
    if ActiveWindowOfDeal(r, d).Success? {
      RulesHoldWhenResolved(r, d);
    }
    if HoursValid(r) && DealTimesParse(d) && StartRule(r, d) < EndRule(r, d) {
      ResolvedWhenRulesHold(r, d);
    }
  }

  lemma RulesHoldWhenResolved(r: Restaurant, d: Deal)
    requires ActiveWindowOfDeal(r, d).Success?
    ensures HoursValid(r) && DealTimesParse(d) && StartRule(r, d) < EndRule(r, d)
  {
    ResolvedBounds(r, d);
  }

  lemma ResolvedWhenRulesHold(r: Restaurant, d: Deal)
    requires HoursValid(r) && DealTimesParse(d) && StartRule(r, d) < EndRule(r, d)
    ensures ActiveWindowOfDeal(r, d).Success?
  {
    ResolvedBounds(r, d);
  }

  /** A deal whose own start is not before its end is an error, even when it
      is sold out: the window is built before the quantity is looked at. */
  lemma EmptyDealWindowIsError(r: Restaurant, d: Deal)
    requires HoursValid(r) && DealTimesParse(d)
    requires StartRule(r, d) >= EndRule(r, d)
    ensures ActiveWindowOfDeal(r, d) == Failure(StartNotBeforeEnd)
  {
    ResolvedBounds(r, d);
  }

  /** A non-blank deal time that does not parse is an error, not "inactive". */
  lemma MalformedDealTimeIsError(r: Restaurant, d: Deal)
    requires !IsBlank(d.open) && ParseTime(d.open).Failure?
    ensures ActiveWindowOfDeal(r, d).Failure?
  {
  }

  /** The minutes of the resolved window: inside the restaurant's hours,
      inside the deal's own bounds, and only for a deal with stock left. */
  lemma ActiveWindowMinutes(r: Restaurant, d: Deal, t: Minute)
    requires ActiveWindowOfDeal(r, d).Success?
    ensures HoursValid(r) && DealTimesParse(d)
    ensures Covers(ActiveWindowOfDeal(r, d).value, Some(t)) <==>
              && SafeTransInt(d.qtyLeft) > 0
              && ParseTime(r.open).value <= t < ParseTime(r.close).value
              && StartRule(r, d) <= t < EndRule(r, d)
  {
    ResolvedBounds(r, d);
    var rw := Span(ParseTime(r.open).value, ParseTime(r.close).value);
    var dw := Span(StartRule(r, d), EndRule(r, d));
    IntersectionPoints(Some(rw), Some(dw), Some(t));
  }

  /** Without stock (a quantity of at most 0, or one that does not parse)
      a deal is never active. */
  lemma SoldOutIsInactive(r: Restaurant, d: Deal)
    requires SafeTransInt(d.qtyLeft) <= 0
    ensures ActiveWindowOfDeal(r, d).Success? ==> ActiveWindowOfDeal(r, d).value.None?
  {
  }

  /** A deal with stock and no time fields of its own is active for exactly
      the restaurant's hours. */
  lemma NoDealTimesGivesRestaurantHours(r: Restaurant, d: Deal)
    requires HoursValid(r) && NoDealTimes(d) && SafeTransInt(d.qtyLeft) > 0
    ensures ActiveWindowOfDeal(r, d) == Success(Some(RestaurantWindow(r)))
  {
  }

  /** `isActiveDealContainsTime`, in terms of the restaurant and the deal alone. */
  lemma ContainsTimeMeaning(time: Minute, r: Restaurant, d: Deal)
    requires ActiveWindowOfDeal(r, d).Success?
    ensures IsActiveDealContainsTime(time, r, d).Success?
    ensures IsActiveDealContainsTime(time, r, d).value <==>
              && SafeTransInt(d.qtyLeft) > 0
              && ParseTime(r.open).value <= time < ParseTime(r.close).value
              && StartRule(r, d) <= time < EndRule(r, d)
  {
    ActiveWindowMinutes(r, d, time);
  }
}
