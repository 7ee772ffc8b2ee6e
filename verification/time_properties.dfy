/** What the time-of-day parser and formatter promise: normalisation is
    idempotent, each spelling is read as the clock time its fields denote, the
    12-hour and 24-hour spellings of one instant agree, and formatting and
    parsing are inverse to each other. */
module TimeProperties {
  import opened Wrappers
  import opened Errors
  import opened TimeUtils

  // ---------------------------------------------------------------------------
  // Normalisation
  // ---------------------------------------------------------------------------

  /** `trim` at the front keeps a suffix of the text. */
  lemma {:induction false} TrimStartSuffix(s: string)
    ensures |TrimStart(s)| <= |s| && TrimStart(s) == s[|s| - |TrimStart(s)|..]
  {
    if s != [] && IsTrimmable(s[0]) {
      TrimStartSuffix(s[1..]);
    }
  }

  /** Every character `trim` drops at the front is trimmable. */
  lemma {:induction false} TrimStartDropped(s: string, i: int)
    requires 0 <= i < |s| - |TrimStart(s)|
    ensures IsTrimmable(s[i])
  {
    if i > 0 {
      assert s != [] && IsTrimmable(s[0]);
      TrimStartDropped(s[1..], i - 1);
    }
  }

  /** The front of a text trimmed at the front is not trimmable. */
  lemma {:induction false} TrimStartStops(s: string)
    ensures TrimStart(s) == [] || !IsTrimmable(TrimStart(s)[0])
  {
    if s != [] && IsTrimmable(s[0]) {
      TrimStartStops(s[1..]);
    }
  }

  /** `trim` at the front removes exactly a run of trimmable characters. */
  lemma TrimStartSpec(s: string)
    ensures var r := TrimStart(s);
            && |r| <= |s| && r == s[|s| - |r|..]
            && (forall i :: 0 <= i < |s| - |r| ==> IsTrimmable(s[i]))
            && (r == [] || !IsTrimmable(r[0]))
  {
    TrimStartSuffix(s);
    TrimStartStops(s);
    forall i | 0 <= i < |s| - |TrimStart(s)|
      ensures IsTrimmable(s[i])
    {
      TrimStartDropped(s, i);
    }
  }

  /** `trim` at the back keeps a prefix of the text. */
  lemma {:induction false} TrimEndPrefix(s: string)
    ensures |TrimEnd(s)| <= |s| && TrimEnd(s) == s[..|TrimEnd(s)|]
  {
    if s != [] && IsTrimmable(s[|s| - 1]) {
      TrimEndPrefix(s[..|s| - 1]);
    }
  }

  /** Every character `trim` drops at the back is trimmable. */
  lemma {:induction false} TrimEndDropped(s: string, i: int)
    requires |TrimEnd(s)| <= i < |s|
    ensures IsTrimmable(s[i])
  {
    if i < |s| - 1 {
      assert s != [] && IsTrimmable(s[|s| - 1]);
      TrimEndDropped(s[..|s| - 1], i);
    }
  }

  /** The back of a text trimmed at the back is not trimmable. */
  lemma {:induction false} TrimEndStops(s: string)
    ensures TrimEnd(s) == [] || !IsTrimmable(TrimEnd(s)[|TrimEnd(s)| - 1])
  {
    if s != [] && IsTrimmable(s[|s| - 1]) {
      TrimEndStops(s[..|s| - 1]);
    }
  }

  /** `trim` at the back removes exactly a run of trimmable characters. */
  lemma TrimEndSpec(s: string)
    ensures var r := TrimEnd(s);
            && |r| <= |s| && r == s[..|r|]
            && (forall i :: |r| <= i < |s| ==> IsTrimmable(s[i]))
            && (r == [] || !IsTrimmable(r[|r| - 1]))
  {
    TrimEndPrefix(s);
    TrimEndStops(s);
    forall i | |TrimEnd(s)| <= i < |s|
      ensures IsTrimmable(s[i])
    {
      TrimEndDropped(s, i);
    }
  }

  /** A trimmed text starts and ends with a character `trim` keeps. */
  lemma TrimEnds(s: string)
    ensures var r := Trim(s);
            r == [] || (!IsTrimmable(r[0]) && !IsTrimmable(r[|r| - 1]))
  {
    TrimStartSpec(s);
    TrimEndSpec(TrimStart(s));
  }

  /** Removing spaces leaves no space and invents no character; a text
      without spaces is left alone. */
  lemma {:induction false} RemoveSpacesSpec(s: string)
    ensures var r := RemoveSpaces(s);
            && |r| <= |s|
            && (forall i :: 0 <= i < |r| ==> r[i] != ' ' && r[i] in s)
            && ((forall i :: 0 <= i < |s| ==> s[i] != ' ') ==> r == s)
  {
    if s != [] {
      RemoveSpacesSpec(s[1..]);
      var r := RemoveSpaces(s);
      var head := if s[0] == ' ' then [] else [s[0]];
      assert r == head + RemoveSpaces(s[1..]);
      forall i | 0 <= i < |r|
        ensures r[i] != ' ' && r[i] in s
      {
        if i >= |head| {
          assert r[i] == RemoveSpaces(s[1..])[i - |head|];
          assert r[i] in s[1..];
        }
      }
    }
  }

  /** Blank text is text made of whitespace characters only. */
  lemma {:induction false} AllWhitespaceMeaning(s: string)
    ensures AllWhitespace(s) <==> forall i :: 0 <= i < |s| ==> IsJavaWhitespace(s[i])
  {
    if s != [] {
      AllWhitespaceMeaning(s[1..]);
      assert forall i :: 1 <= i < |s| ==> s[i] == s[1..][i - 1];
    }
  }

  /** `trim` keeps a contiguous piece of the text, so every character it
      keeps comes from the text. */
  lemma TrimKeepsInner(s: string)
    ensures forall j :: 0 <= j < |Trim(s)| ==> Trim(s)[j] in s
  {
    var u := TrimStart(s);
    TrimStartSuffix(s);
    TrimEndPrefix(u);
    forall j | 0 <= j < |Trim(s)|
      ensures Trim(s)[j] in s
    {
      assert Trim(s)[j] == u[j] == s[|s| - |u| + j];
    }
  }

  /** Normalising blank text leaves blank text: whitespace is never
      lower-cased into anything else. */
  lemma BlankStaysBlank(s: string)
    requires IsBlank(Some(s))
    ensures IsBlank(Some(Normalize(s)))
  {
    var t := Trim(s);
    var u := ToLower(t);
    var n := RemoveSpaces(u);
    TrimKeepsInner(s);
    RemoveSpacesSpec(u);
    AllWhitespaceMeaning(s);
    forall i | 0 <= i < |n|
      ensures IsJavaWhitespace(n[i])
    {
      var j :| 0 <= j < |u| && u[j] == n[i];
      assert u[j] == ToLowerChar(t[j]);
      assert t[j] in s;
    }
    AllWhitespaceMeaning(n);
  }

  /** A text with no space whose last character survives keeps that last character. */
  lemma {:induction false} RemoveSpacesKeepsLast(s: string)
    requires s != [] && s[|s| - 1] != ' '
    ensures RemoveSpaces(s) != [] && RemoveSpaces(s)[|RemoveSpaces(s)| - 1] == s[|s| - 1]
  {
    if |s| > 1 {
      RemoveSpacesKeepsLast(s[1..]);
    }
  }

  lemma TrimFixesUntrimmedEnds(s: string)
    requires s == [] || (!IsTrimmable(s[0]) && !IsTrimmable(s[|s| - 1]))
    ensures Trim(s) == s
  {
  }

  /** The normal form starts and ends with a character `trim` keeps. */
  lemma NormalFormEnds(s: string)
    ensures var n := Normalize(s);
            n == [] || (!IsTrimmable(n[0]) && !IsTrimmable(n[|n| - 1]))
  {
    var u := ToLower(Trim(s));
    TrimEnds(s);
    if u != [] {
      assert !IsTrimmable(u[0]) && !IsTrimmable(u[|u| - 1]);
      RemoveSpacesKeepsLast(u);
    }
  }

  /** The normal form holds no upper-case ASCII letter and no space. */
  lemma NormalFormLower(s: string)
    ensures var n := Normalize(s);
            forall i :: 0 <= i < |n| ==> ToLowerChar(n[i]) == n[i] && n[i] != ' '
  {
    var t := Trim(s);
    var u := ToLower(t);
    var n := RemoveSpaces(u);
    RemoveSpacesSpec(u);
    forall i | 0 <= i < |n|
      ensures ToLowerChar(n[i]) == n[i]
    {
      var j :| 0 <= j < |u| && u[j] == n[i];
      assert u[j] == ToLowerChar(t[j]);
    }
  }

  /** Normalising twice is normalising once: the normal form starts and ends
      with a non-trimmable character, is lower case and holds no space. */
  lemma NormalizeIdempotent(s: string)
    ensures Normalize(Normalize(s)) == Normalize(s)
  {
    var n := Normalize(s);
    NormalFormEnds(s);
    NormalFormLower(s);
    TrimFixesUntrimmedEnds(n);
    assert ToLower(n) == n;
    RemoveSpacesSpec(n);
  }

  /** A character that normalisation never changes or removes, and that is
      not whitespace. */
  predicate IsPlainChar(c: char) {
    c > ' ' && !('A' <= c <= 'Z') && !IsJavaWhitespace(c)
  }

  lemma DigitIsPlain(c: char)
    requires IsDigit(c)
    ensures IsPlainChar(c)
  {
  }

  lemma MeridiemIsPlain(ap: string, i: int)
    requires IsMeridiem(ap) && 0 <= i < |ap|
    ensures IsPlainChar(ap[i])
  {
  }

  lemma NormalizeFixesPlainText(s: string)
    requires forall i :: 0 <= i < |s| ==> IsPlainChar(s[i])
    ensures Normalize(s) == s
    ensures s != [] ==> !IsBlank(Some(s))
  {
    TrimFixesUntrimmedEnds(s);
    assert ToLower(s) == s;
    RemoveSpacesSpec(s);
  }

  /** Parsing a text that is already in normal form: the 12-hour reading when
      the text has that form, else the 24-hour reading, else a format error. */
  lemma ParseNormalText(t: string)
    requires !IsBlank(Some(t)) && Normalize(t) == t
    ensures Matches12H(t) ==> ParseTime(Some(t)) == Success(Parse12H(t))
    ensures !Matches12H(t) && Matches24H(t) ==> ParseTime(Some(t)) == Success(Parse24H(t))
    ensures !Matches12H(t) && !Matches24H(t) ==> ParseTime(Some(t)) == Failure(InvalidTimeFormat(t))
  {
    if Matches12H(t) {
      assert EndsWithMeridiem(t);
    } else if Matches24H(t) {
      assert !EndsWithMeridiem(t) by { assert IsDigit(t[|t| - 1]); }
    }
  }

  /** Only the normal form of a text decides what it parses to, as long as
      that normal form is not blank. */
  lemma ParseDependsOnlyOnNormalForm(s: string)
    requires !IsBlank(Some(Normalize(s)))
    ensures ParseTime(Some(Normalize(s))) == ParseTime(Some(s))
  {
    var n := Normalize(s);
    assert !IsBlank(Some(s)) by {
      if IsBlank(Some(s)) {
        BlankStaysBlank(s);
      }
    }
    NormalizeIdempotent(s);
    ParseNormalText(n);
    if Matches12H(n) {
      assert EndsWithMeridiem(n);
    } else if Matches24H(n) {
      assert !EndsWithMeridiem(n) by { assert IsDigit(n[|n| - 1]); }
    }
  }

  // ---------------------------------------------------------------------------
  // Reading the two forms
  // ---------------------------------------------------------------------------

  lemma Slices24(hh: string, mm: string)
    requires |hh| == 1 || |hh| == 2
    requires |mm| == 2
    ensures var t := hh + ":" + mm;
            && |t| == |hh| + 3 && t[..|t| - 3] == hh && t[|t| - 3] == ':' && t[|t| - 2..] == mm
  {
    var t := hh + ":" + mm;
    assert t[..|t| - 3] == hh;
    assert t[|t| - 2..] == mm;
  }

  lemma Slices12(hh: string, mm: string, ap: string)
    requires |hh| == 1 || |hh| == 2
    requires |mm| == 2 && |ap| == 2
    ensures var t := hh + ":" + mm + ap;
            && |t| == |hh| + 5 && t[..|t| - 5] == hh && t[|t| - 5] == ':'
            && t[|t| - 4..|t| - 2] == mm && t[|t| - 2..] == ap
  {
    var t := hh + ":" + mm + ap;
    assert t[..|t| - 5] == hh;
    assert t[|t| - 4..|t| - 2] == mm;
    assert t[|t| - 2..] == ap;
  }

  /** A well-formed 24-hour spelling `H:mm` is read as hour H, minute mm. */
  lemma Read24(hh: string, mm: string)
    requires IsHour24Field(hh) && IsMinuteField(mm)
    ensures ParseTime(Some(hh + ":" + mm)) == Success(FieldValue(hh) * 60 + FieldValue(mm))
  {
    var t := hh + ":" + mm;
    Slices24(hh, mm);
    forall i | 0 <= i < |t|
      ensures IsPlainChar(t[i])
    {
      if i < |hh| {
        assert t[i] == hh[i];
        DigitIsPlain(hh[i]);
      } else if i > |hh| {
        assert t[i] == mm[i - |hh| - 1];
        DigitIsPlain(mm[i - |hh| - 1]);
      }
    }
    NormalizeFixesPlainText(t);
    assert Matches24H(t) && !Matches12H(t);
    ParseNormalText(t);
  }

  /** A 12-hour spelling assembled from well-formed fields is in normal form
      and has the 12-hour form, with those fields. */
  lemma Assemble12(hh: string, mm: string, ap: string)
    requires IsHour12Field(hh) && IsMinuteField(mm) && IsMeridiem(ap)
    ensures var t := hh + ":" + mm + ap;
            && Matches12H(t) && Normalize(t) == t && !IsBlank(Some(t)) && t[0] == hh[0]
            && Hour12Of(t) == FieldValue(hh) && MinuteOf12(t) == FieldValue(mm)
            && (IsPm(t) <==> ap == "pm")
  {
    var t := hh + ":" + mm + ap;
    Slices12(hh, mm, ap);
    forall i | 0 <= i < |t|
      ensures IsPlainChar(t[i])
    {
      if i < |hh| {
        assert t[i] == hh[i];
        DigitIsPlain(hh[i]);
      } else if i == |hh| {
        assert t[i] == ':';
      } else if i < |hh| + 3 {
        assert t[i] == mm[i - |hh| - 1];
        DigitIsPlain(mm[i - |hh| - 1]);
      } else {
        assert t[i] == ap[i - |hh| - 3];
        MeridiemIsPlain(ap, i - |hh| - 3);
      }
    }
    NormalizeFixesPlainText(t);
  }

  /** A well-formed 12-hour spelling `h:mm am|pm` is read as clock hour h of
      the morning or afternoon, where clock hour 12 starts the half day. */
  lemma Read12(hh: string, mm: string, ap: string)
    requires IsHour12Field(hh) && IsMinuteField(mm) && IsMeridiem(ap)
    ensures ParseTime(Some(hh + ":" + mm + ap))
            == Success((FieldValue(hh) % 12) * 60 + FieldValue(mm) + (if ap == "pm" then Noon else 0))
  {
    var t := hh + ":" + mm + ap;
    Assemble12(hh, mm, ap);
    ParseNormalText(t);
  }

  /** What a successful parse means: the minute's hour and minute are those
      the text names; a 12-hour text is before noon exactly when it says `am`. */
  lemma ParseTimeMeaning(s: Option<string>)
    requires ParseTime(s).Success?
    ensures var n := Normalize(s.value);
            var m := ParseTime(s).value;
            && (Matches24H(n) ==> m / 60 == Hour24Of(n) && m % 60 == MinuteOf24(n))
            && (Matches12H(n) ==>
                  && m % 60 == MinuteOf12(n)
                  && m / 60 == Hour12Of(n) % 12 + (if IsPm(n) then 12 else 0)
                  && (m < Noon <==> !IsPm(n)))
  {
    var n := Normalize(s.value);
    if Matches12H(n) {
      assert EndsWithMeridiem(n);
      assert !Matches24H(n) by { assert !IsDigit(n[|n| - 1]); }
    } else {
      assert !EndsWithMeridiem(n) by { assert IsDigit(n[|n| - 1]); }
    }
  }

  /** `12:xxam` is in the first hour of the day, `12:xxpm` in the first hour
      after noon. */
  lemma TwelveOClock(s: Option<string>)
    requires ParseTime(s).Success?
    requires Matches12H(Normalize(s.value)) && Hour12Of(Normalize(s.value)) == 12
    ensures !IsPm(Normalize(s.value)) ==> 0 <= ParseTime(s).value < 60
    ensures IsPm(Normalize(s.value)) ==> Noon <= ParseTime(s).value < Noon + 60
  {
    ParseTimeMeaning(s);
  }

  // ---------------------------------------------------------------------------
  // Formatting and the round trips
  // ---------------------------------------------------------------------------

  lemma HourTextValue(h: nat)
    requires 1 <= h <= 12
    ensures IsHour12Field(HourText(h)) && FieldValue(HourText(h)) == h
    ensures HourText(h)[0] != '0'
  {
  }

  lemma TwoDigitValue(n: nat)
    requires n < 100
    ensures |TwoDigitText(n)| == 2 && FieldValue(TwoDigitText(n)) == n
    ensures n < 60 ==> IsMinuteField(TwoDigitText(n))
  {
  }

  /** The clock hour and half of the day recover the hour of the day. */
  lemma ClockOfHour(hour: nat)
    requires hour < 24
    ensures ClockHour(hour) % 12 + (if hour >= 12 then 12 else 0) == hour
    ensures MeridiemText(hour) == (if hour >= 12 then "pm" else "am")
    ensures IsMeridiem(MeridiemText(hour))
    ensures ClockHour(hour) == 12 <==> hour == 0 || hour == 12
  {
  }

  lemma HourOfMinute(m: Minute)
    ensures m / 60 < 24 && m == (m / 60) * 60 + m % 60 && m % 60 < 60
    ensures m / 60 >= 12 <==> m >= Noon
    ensures m / 60 == 0 <==> m < 60
    ensures m / 60 == 12 <==> Noon <= m < Noon + 60
  {
  }

  /** The pieces `parseTime(int)` prints for a minute. */
  lemma FormatPieces(m: Minute)
    ensures var hh := HourText(ClockHour(m / 60));
            var mm := TwoDigitText(m % 60);
            var ap := MeridiemText(m / 60);
            && FormatTime(m) == Success(hh + ":" + mm + ap)
            && IsHour12Field(hh) && hh[0] != '0' && FieldValue(hh) == ClockHour(m / 60)
            && IsMinuteField(mm) && FieldValue(mm) == m % 60
            && IsMeridiem(ap) && (ap == "pm" <==> m >= Noon)
            && (ClockHour(m / 60) == 12 <==> m < 60 || Noon <= m < Noon + 60)
            && (ClockHour(m / 60) % 12) * 60 + m % 60 + (if ap == "pm" then Noon else 0) == m
  {
    HourOfMinute(m);
    ClockOfHour(m / 60);
    HourTextValue(ClockHour(m / 60));
    TwoDigitValue(m % 60);
  }

  /** The formatted text is a canonical 12-hour spelling: no leading zero,
      lower case, clock hour 12 in the first hour of each half day, and `am`
      exactly before noon. */
  lemma FormatTimeShape(m: Minute)
    ensures var t := FormatTime(m).value;
            && Matches12H(t)
            && t[0] != '0'
            && Normalize(t) == t
            && (IsPm(t) <==> m >= Noon)
            && (Hour12Of(t) == 12 <==> m < 60 || Noon <= m < Noon + 60)
  {
    FormatPieces(m);
    Assemble12(HourText(ClockHour(m / 60)), TwoDigitText(m % 60), MeridiemText(m / 60));
  }

  /** Formatting a minute and parsing the text gives the minute back. */
  lemma FormatParseRoundTrip(m: Minute)
    ensures FormatTime(m).Success?
    ensures IsValidTime(Some(FormatTime(m).value)).Success?
    ensures ParseTime(Some(FormatTime(m).value)) == Success(m)
  {
    FormatPieces(m);
    Read12(HourText(ClockHour(m / 60)), TwoDigitText(m % 60), MeridiemText(m / 60));
  }

  /** Clock arithmetic behind the reverse round trip. */
  lemma ClockRoundTrip(h: nat, minute: nat, pm: bool)
    requires 1 <= h <= 12 && minute < 60
    ensures var m := (h % 12) * 60 + minute + (if pm then Noon else 0);
            && 0 <= m < MinutesPerDay
            && m / 60 < 24 && ClockHour(m / 60) == h && m % 60 == minute
            && MeridiemText(m / 60) == (if pm then "pm" else "am")
  {
  }

  /** Printing the value of a field gives the field back when it has no
      leading zero. */
  lemma FieldsReprint(hh: string, mm: string)
    requires IsHour12Field(hh) && hh[0] != '0' && IsMinuteField(mm)
    ensures HourText(FieldValue(hh)) == hh
    ensures TwoDigitText(FieldValue(mm)) == mm
  {
  }

  /** A canonical 12-hour spelling (no leading zero, already normal) is
      reproduced exactly by parsing it and formatting the minute. */
  lemma ParseFormatRoundTrip(s: string)
    requires Matches12H(s) && s[0] != '0'
    ensures ParseTime(Some(s)).Success?
    ensures FormatTime(ParseTime(Some(s)).value) == Success(s)
  {
    var hh, mm, ap := Split12(s);
    Read12(hh, mm, ap);
    FieldsReprint(hh, mm);
    FormatOfClock(FieldValue(hh), FieldValue(mm), ap == "pm");
  }

  /** The three fields of a 12-hour text. */
  lemma Split12(s: string) returns (hh: string, mm: string, ap: string)
    requires Matches12H(s)
    ensures s == hh + ":" + mm + ap
    ensures IsHour12Field(hh) && hh[0] == s[0] && IsMinuteField(mm) && IsMeridiem(ap)
  {
    var k := |s| - 5;
    hh, mm, ap := s[..k], s[k + 1..k + 3], s[k + 3..];
    assert s == hh + ":" + mm + ap;
  }

  /** The minute a clock reading names is printed as that reading. */
  lemma FormatOfClock(h: nat, minute: nat, pm: bool)
    requires 1 <= h <= 12 && minute < 60
    ensures FormatTime((h % 12) * 60 + minute + (if pm then Noon else 0))
            == Success(HourText(h) + ":" + TwoDigitText(minute) + (if pm then "pm" else "am"))
  {
    ClockRoundTrip(h, minute, pm);
  }

  /** The two-digit 24-hour spelling of an instant parses to its minute. */
  lemma TwentyFourHourSpelling(hour: nat, minute: nat)
    requires hour < 24 && minute < 60
    ensures ParseTime(Some(TwoDigitText(hour) + ":" + TwoDigitText(minute))) == Success(hour * 60 + minute)
  {
    PaddedHour24Field(hour);
    TwoDigitValue(minute);
    Read24(TwoDigitText(hour), TwoDigitText(minute));
  }

  lemma PaddedHour24Field(h: nat)
    requires h < 24
    ensures IsHour24Field(TwoDigitText(h)) && FieldValue(TwoDigitText(h)) == h
  {
    TwoDigitValue(h);
  }

  /** Before 10:00 the hour may be written with one digit. */
  lemma TwentyFourHourShortSpelling(hour: nat, minute: nat)
    requires hour < 10 && minute < 60
    ensures ParseTime(Some([DigitChar(hour)] + ":" + TwoDigitText(minute))) == Success(hour * 60 + minute)
  {
    TwoDigitValue(minute);
    Read24([DigitChar(hour)], TwoDigitText(minute));
  }

  /** The 12-hour spelling of an instant parses to its minute. */
  lemma TwelveHourSpelling(hour: nat, minute: nat)
    requires hour < 24 && minute < 60
    ensures ParseTime(Some(HourText(ClockHour(hour)) + ":" + TwoDigitText(minute) + MeridiemText(hour)))
            == Success(hour * 60 + minute)
  {
    ClockOfHour(hour);
    TwoDigitValue(minute);
    HourTextValue(ClockHour(hour));
    Read12(HourText(ClockHour(hour)), TwoDigitText(minute), MeridiemText(hour));
  }

  lemma PaddedHourField(h: nat)
    requires 1 <= h <= 12
    ensures IsHour12Field(TwoDigitText(h)) && FieldValue(TwoDigitText(h)) == h
  {
    TwoDigitValue(h);
  }

  /** The 12-hour spelling with a leading zero parses to the same minute. */
  lemma TwelveHourPaddedSpelling(hour: nat, minute: nat)
    requires hour < 24 && minute < 60
    ensures ParseTime(Some(TwoDigitText(ClockHour(hour)) + ":" + TwoDigitText(minute) + MeridiemText(hour)))
            == Success(hour * 60 + minute)
  {
    ClockOfHour(hour);
    TwoDigitValue(minute);
    PaddedHourField(ClockHour(hour));
    Read12(TwoDigitText(ClockHour(hour)), TwoDigitText(minute), MeridiemText(hour));
  }

  /** The 12-hour and 24-hour spellings of one instant parse to the same
      minute, for instance `2:00pm` and `14:00`. */
  lemma SpellingsAgree(hour: nat, minute: nat)
    requires hour < 24 && minute < 60
    ensures ParseTime(Some(HourText(ClockHour(hour)) + ":" + TwoDigitText(minute) + MeridiemText(hour)))
            == ParseTime(Some(TwoDigitText(hour) + ":" + TwoDigitText(minute)))
  {
    TwentyFourHourSpelling(hour, minute);
    TwelveHourSpelling(hour, minute);
  }

  // ---------------------------------------------------------------------------
  // Rejected inputs
  // ---------------------------------------------------------------------------

  /** Null, empty and all-whitespace input is refused as blank. */
  lemma BlankRejected(s: Option<string>)
    requires s.None? || forall i :: 0 <= i < |s.value| ==> IsJavaWhitespace(s.value[i])
    ensures ParseTime(s) == Failure(BlankTime)
  {
    if s.Some? {
      AllWhitespaceMeaning(s.value);
    }
  }

  /** Text that is not blank but normalises to blank text fails with the
      format error for its normal form, not with the blank-time error. */
  lemma BlankNormalFormIsFormatError(s: string)
    requires !IsBlank(Some(s)) && IsBlank(Some(Normalize(s)))
    ensures ParseTime(Some(s)) == Failure(InvalidTimeFormat(Normalize(s)))
  {
    var n := Normalize(s);
    AllWhitespaceMeaning(n);
    assert !Matches24H(n) by {
      if |n| >= 3 {
        assert IsJavaWhitespace(n[|n| - 3]);
      }
    }
    assert !Matches12H(n) by {
      if |n| >= 5 {
        assert IsJavaWhitespace(n[|n| - 5]);
      }
    }
  }

  /** U+0001 is not whitespace, so its text is not blank; `trim` drops it,
      so the text fails as a malformed, empty time. */
  lemma ControlCharacterIsFormatError()
    ensures !IsBlank(Some("\U{0001}"))
    ensures ParseTime(Some("\U{0001}")) == Failure(InvalidTimeFormat(""))
  {
    var s := "\U{0001}";
    assert TrimStart(s) == TrimStart(s[1..]) == [];
    assert Normalize(s) == [];
  }

  /** U+3000 is whitespace, so its text is blank, although `trim` keeps it. */
  lemma IdeographicSpaceIsBlank()
    ensures Trim("\U{3000}") == "\U{3000}"
    ensures ParseTime(Some("\U{3000}")) == Failure(BlankTime)
  {
  }

  /** Too many digits and no colon. */
  lemma RejectsDigitsOnly()
    ensures ParseTime(Some("123456")).Failure?
  {
    NormalizeFixesPlainText("123456");
  }

  /** A 12-hour text needs a clock hour from 1 to 12. */
  lemma RejectsClockHourZero()
    ensures ParseTime(Some("0:30pm")).Failure?
  {
    NormalizeFixesPlainText("0:30pm");
  }

  lemma RejectsClockHourThirteen()
    ensures ParseTime(Some("13:00pm")).Failure?
  {
    NormalizeFixesPlainText("13:00pm");
  }

  /** A 24-hour text needs an hour from 0 to 23 and a minute from 00 to 59. */
  lemma RejectsHourTwentyFour()
    ensures ParseTime(Some("24:00")).Failure?
  {
    NormalizeFixesPlainText("24:00");
  }

  lemma RejectsMinuteSixty()
    ensures ParseTime(Some("12:60")).Failure?
  {
    NormalizeFixesPlainText("12:60");
  }

  /** `parseTime(int)` refuses anything outside 0..1439. */
  lemma FormatRejectsOutOfRange(time: int)
    requires time < 0 || time >= MinutesPerDay
    ensures FormatTime(time) == Failure(MinuteOutOfRange)
  {
  }
}
