/** Time-of-day text: validation of the two accepted spellings, conversion of a
    spelling to a minute of the day, and formatting of a minute back to text.
    A `java.time.LocalTime` at minute precision is a `Minute` here. */
module TimeUtils {
  import opened Wrappers
  import opened Errors

  const MinutesPerDay: int := 24 * 60
  const Noon: int := 12 * 60

  /** A minute of the day, 0 (midnight) to 1439 (23:59). */
  type Minute = m: int | 0 <= m < MinutesPerDay

  // ---------------------------------------------------------------------------
  // Normalisation: trim, lower-case, drop spaces
  // ---------------------------------------------------------------------------

  /** A character `String.trim` removes: every code point up to U+0020. */
  predicate IsTrimmable(c: char) {
    c <= ' '
  }

  function TrimStart(s: string): string {
    if s != [] && IsTrimmable(s[0]) then TrimStart(s[1..]) else s
  }

  function TrimEnd(s: string): string {
    if s != [] && IsTrimmable(s[|s| - 1]) then TrimEnd(s[..|s| - 1]) else s
  }

  /** `String.trim`: drops trimmable characters at both ends. */
  function Trim(s: string): string {
    TrimEnd(TrimStart(s))
  }

  /** `Character.isWhitespace`: the controls tab, line feed, U+000B, form
      feed, carriage return and U+001C to U+001F, and the Unicode space, line
      and paragraph separators except the no-break spaces U+00A0, U+2007 and
      U+202F. */
  predicate IsJavaWhitespace(c: char) {
    || '\t' <= c <= '\r'
    || '\U{001C}' <= c <= ' '
    || c == '\U{1680}'
    || '\U{2000}' <= c <= '\U{2006}'
    || '\U{2008}' <= c <= '\U{200A}'
    || c == '\U{2028}' || c == '\U{2029}' || c == '\U{205F}' || c == '\U{3000}'
  }

  /** micrometer's `StringUtils.isBlank`: null, or every character (none, for
      the empty text) is whitespace in the sense of `Character.isWhitespace`.
      This is not the same as trimming to nothing: `trim` also removes the
      other controls up to U+0020 and keeps the separators above it. */
  predicate IsBlank(s: Option<string>) {
    s.None? || AllWhitespace(s.value)
  }

  predicate AllWhitespace(s: string) {
    s == [] || (IsJavaWhitespace(s[0]) && AllWhitespace(s[1..]))
  }

  /** `toLowerCase` on the ASCII letters; every other character is kept. */
  function ToLowerChar(c: char): char {
    if 'A' <= c <= 'Z' then (c as int - 'A' as int + 'a' as int) as char else c
  }

  function ToLower(s: string): string {
    seq(|s|, i requires 0 <= i < |s| => ToLowerChar(s[i]))
  }

  /** `replace(" ", "")`: drops every U+0020, keeps everything else in order. */
  function RemoveSpaces(s: string): string {
    if s == [] then [] else (if s[0] == ' ' then [] else [s[0]]) + RemoveSpaces(s[1..])
  }

  /** The text the validator matches: `time.trim().toLowerCase().replace(" ", "")`. */
  function Normalize(s: string): string {
    RemoveSpaces(ToLower(Trim(s)))
  }

  // ---------------------------------------------------------------------------
  // The two accepted forms (the source's two regular expressions)
  // ---------------------------------------------------------------------------

  predicate IsDigit(c: char) {
    '0' <= c <= '9'
  }

  function DigitValue(c: char): (v: nat)
    requires IsDigit(c)
    ensures v < 10
  {
    c as int - '0' as int
  }

  function DigitChar(d: nat): (c: char)
    requires d < 10
    ensures IsDigit(c) && DigitValue(c) == d
  {
    ('0' as int + d) as char
  }

  /** Hour of the 24-hour form: `[01]?\d|2[0-3]`. */
  predicate IsHour24Field(h: string) {
    || (|h| == 1 && IsDigit(h[0]))
    || (|h| == 2 && (h[0] == '0' || h[0] == '1') && IsDigit(h[1]))
    || (|h| == 2 && h[0] == '2' && '0' <= h[1] <= '3')
  }

  /** Hour of the 12-hour form: `0?[1-9]|1[0-2]`. */
  predicate IsHour12Field(h: string) {
    || (|h| == 1 && '1' <= h[0] <= '9')
    || (|h| == 2 && h[0] == '0' && '1' <= h[1] <= '9')
    || (|h| == 2 && h[0] == '1' && '0' <= h[1] <= '2')
  }

  /** Minutes of either form: `[0-5]\d`. */
  predicate IsMinuteField(m: string) {
    |m| == 2 && '0' <= m[0] <= '5' && IsDigit(m[1])
  }

  predicate IsMeridiem(a: string) {
    a == "am" || a == "pm"
  }

  /** `^([01]?\d|2[0-3]):[0-5]\d$`: the colon sits three places from the end. */
  predicate Matches24H(s: string) {
    && (|s| == 4 || |s| == 5)
    && s[|s| - 3] == ':'
    && IsHour24Field(s[..|s| - 3])
    && IsMinuteField(s[|s| - 2..])
  }

  /** `^(0?[1-9]|1[0-2]):[0-5]\d(am|pm)$` over lower-cased text (the `(?i)`
      flag cannot matter once the text is lower case): the colon sits five
      places from the end. */
  predicate Matches12H(s: string) {
    && (|s| == 6 || |s| == 7)
    && s[|s| - 5] == ':'
    && IsHour12Field(s[..|s| - 5])
    && IsMinuteField(s[|s| - 4..|s| - 2])
    && IsMeridiem(s[|s| - 2..])
  }

  /** Decimal value of a one- or two-digit field. */
  function FieldValue(f: string): nat
    requires |f| == 1 || |f| == 2
    requires forall i :: 0 <= i < |f| ==> IsDigit(f[i])
  {
    if |f| == 1 then DigitValue(f[0]) else 10 * DigitValue(f[0]) + DigitValue(f[1])
  }

  function Hour24Of(s: string): (h: nat)
    requires Matches24H(s)
    ensures h < 24
  {
    FieldValue(s[..|s| - 3])
  }

  function Hour12Of(s: string): (h: nat)
    requires Matches12H(s)
    ensures 1 <= h <= 12
  {
    FieldValue(s[..|s| - 5])
  }

  function MinuteOf24(s: string): (m: nat)
    requires Matches24H(s)
    ensures m < 60
  {
    FieldValue(s[|s| - 2..])
  }

  function MinuteOf12(s: string): (m: nat)
    requires Matches12H(s)
    ensures m < 60
  {
    FieldValue(s[|s| - 4..|s| - 2])
  }

  predicate IsPm(s: string) {
    |s| >= 2 && s[|s| - 2..] == "pm"
  }

  predicate EndsWithMeridiem(s: string) {
    |s| >= 2 && IsMeridiem(s[|s| - 2..])
  }

  // ---------------------------------------------------------------------------
  // isValidTime, parseTime(String), parseTime(int)
  // ---------------------------------------------------------------------------

  /** `isValidTime`: the normalised text, provided it has one of the two forms. */
  function IsValidTime(s: Option<string>): (r: Result<string, Error>)
    ensures r.Success? <==>
              !IsBlank(s) && (Matches24H(Normalize(s.value)) || Matches12H(Normalize(s.value)))
    ensures r.Success? ==> r.value == Normalize(s.value)
    ensures IsBlank(s) ==> r == Failure(BlankTime)
  {
    if IsBlank(s) then Failure(BlankTime)
    else
      var time := Normalize(s.value);
      if !Matches24H(time) && !Matches12H(time) then Failure(InvalidTimeFormat(time))
      else Success(time)
  }

  /** `LocalTime.parse(time, "h:mma")`: clock hour 12 is hour 0 of its half day. */
  function Parse12H(s: string): Minute
    requires Matches12H(s)
  {
    (Hour12Of(s) % 12) * 60 + MinuteOf12(s) + (if IsPm(s) then Noon else 0)
  }

  /** `LocalTime.parse(time, "H:mm")`. */
  function Parse24H(s: string): Minute
    requires Matches24H(s)
  {
    Hour24Of(s) * 60 + MinuteOf24(s)
  }

  /** `parseTime(String)`: validate, then read the text in whichever form it has. */
  function ParseTime(s: Option<string>): (r: Result<Minute, Error>)
    ensures r.Success? <==>
              !IsBlank(s) && (Matches24H(Normalize(s.value)) || Matches12H(Normalize(s.value)))
    ensures IsBlank(s) ==> r == Failure(BlankTime)
  {
    var time :- IsValidTime(s);
    if EndsWithMeridiem(time) then
      assert !Matches24H(time) by { assert !IsDigit(time[|time| - 1]); }
      Success(Parse12H(time))
    else
      Success(Parse24H(time))
  }

  function HourText(h: nat): (r: string)
    requires 1 <= h <= 12
  {
    if h < 10 then [DigitChar(h)] else ['1', DigitChar(h - 10)]
  }

  function TwoDigitText(n: nat): (r: string)
    requires n < 100
  {
    [DigitChar(n / 10), DigitChar(n % 10)]
  }

  /** The hour `h:mma` prints for an hour of the day: 12 for hours 0 and 12. */
  function ClockHour(hour: nat): (c: nat)
    requires hour < 24
    ensures 1 <= c <= 12
  {
    if hour % 12 == 0 then 12 else hour % 12
  }

  function MeridiemText(hour: nat): string {
    if hour < 12 then "am" else "pm"
  }

  /** `parseTime(int)`: formats a minute of the day as lower-case `h:mma`. */
  function FormatTime(time: int): (r: Result<string, Error>)
    ensures r.Success? <==> 0 <= time < MinutesPerDay
    ensures r.Failure? ==> r.error == MinuteOutOfRange
  {
    if time < 0 || time > 1439 then Failure(MinuteOutOfRange)
    else
      var hour := time / 60;
      var minute := time % 60;
      Success(HourText(ClockHour(hour)) + ":" + TwoDigitText(minute) + MeridiemText(hour))
  }
}
