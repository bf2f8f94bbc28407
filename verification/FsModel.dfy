/** Names and ISO boundaries of the date-bucket tree (src/immich_bridge/fs_model.py). */
module FsModel {
  import opened Wrappers
  import opened Text
  import opened Calendar

  // ---------- ISO dates and boundaries ----------

  /** `date.isoformat()`. */
  function DateText(date: Date): (s: string)
    requires Valid(date)
    ensures |s| == 10
  {
    Pad(4, date.y) + "-" + Pad(2, date.m) + "-" + Pad(2, date.d)
  }

  /** The forms of `date.fromisoformat` that have a dash at offsets 4 and 7. */
  function DateFromIso(s: string): (r: Option<Date>)
    ensures r.Some? ==> Valid(r.value)
  {
    if |s| == 10 && s[4] == '-' && s[7] == '-' && AllDigits(s[..4]) && AllDigits(s[5..7]) && AllDigits(s[8..]) then
      var date := Date(DigitsValue(s[..4]), DigitsValue(s[5..7]), DigitsValue(s[8..]));
      if Valid(date) then Some(date) else None
    else None
  }

  lemma DateIsoRoundTrip(date: Date)
    requires Valid(date)
    ensures DateFromIso(DateText(date)) == Some(date)
  {
    var s := DateText(date);
    assert s[..4] == Pad(4, date.y) && s[5..7] == Pad(2, date.m) && s[8..] == Pad(2, date.d);
    Powers();
    PadValue(4, date.y);
    PadValue(2, date.m);
    PadValue(2, date.d);
  }

  /** And only a printed date is read as one. */
  lemma DateIsoOnly(s: string)
    requires DateFromIso(s).Some?
    ensures s == DateText(DateFromIso(s).value)
  {
    hide Pad, Valid, DigitsValue;
    PadOfValue(s[..4]);
    PadOfValue(s[5..7]);
    PadOfValue(s[8..]);
    assert s == s[..4] + "-" + s[5..7] + "-" + s[8..];
  }

  lemma Powers()
    ensures Pow10(1) == 10 && Pow10(2) == 100 && Pow10(3) == 1000 && Pow10(4) == 10000
  {
    assert Pow10(2) == 100;
    assert Pow10(3) == 1000;
  }

  /** `HH:MM:SS`. */
  function ClockText(c: Clock): (s: string)
    requires ValidClock(c)
    ensures |s| == 8
  {
    Pad(2, c.hour) + ":" + Pad(2, c.minute) + ":" + Pad(2, c.second)
  }

  function ClockFromText(s: string): (r: Option<Clock>)
    requires |s| == 8
    ensures r.Some? ==> ValidClock(r.value)
  {
    if s[2] == ':' && s[5] == ':' && AllDigits(s[..2]) && AllDigits(s[3..5]) && AllDigits(s[6..]) then
      var c := Clock(DigitsValue(s[..2]), DigitsValue(s[3..5]), DigitsValue(s[6..]));
      if ValidClock(c) then Some(c) else None
    else None
  }

  lemma ClockRoundTrip(c: Clock)
    requires ValidClock(c)
    ensures ClockFromText(ClockText(c)) == Some(c)
  {
    hide Pad, Pow10, DigitsValue;
    var s := ClockText(c);
    assert s[..2] == Pad(2, c.hour) && s[3..5] == Pad(2, c.minute) && s[6..] == Pad(2, c.second);
    Powers();
    PadValue(2, c.hour);
    PadValue(2, c.minute);
    PadValue(2, c.second);
  }

  /** The written boundaries the bridge compares: a bare date, a second, or a second with milliseconds. */
  datatype Bound =
    | DayBound(date: Date)
    | SecondBound(date: Date, clock: Clock)
    | MilliBound(date: Date, clock: Clock, milli: nat)

  predicate ValidBound(b: Bound) {
    && Valid(b.date)
    && (!b.DayBound? ==> ValidClock(b.clock))
    && (b.MilliBound? ==> b.milli < 1000)
  }

  function Show(b: Bound): string
    requires ValidBound(b)
  {
    DateText(b.date) + Tail(b)
  }

  function Tail(b: Bound): string
    requires ValidBound(b)
  {
    match b
    case DayBound(_) => ""
    case SecondBound(_, clock) => "T" + ClockText(clock) + "Z"
    case MilliBound(_, clock, milli) => "T" + ClockText(clock) + "." + Pad(3, milli) + "Z"
  }

  function At(b: Bound): (i: Instant)
    requires ValidBound(b)
    ensures ValidInstant(i)
  {
    match b
    case DayBound(date) => Instant(date, MIDNIGHT, 0)
    case SecondBound(date, clock) => Instant(date, clock, 0)
    case MilliBound(date, clock, milli) => Instant(date, clock, milli * 1000)
  }

  /** How the search backend reads a boundary. */
  function ParseBound(s: string): Option<Instant> {
    if |s| < 10 || DateFromIso(s[..10]).None? then None
    else
      var date := DateFromIso(s[..10]).value;
      if |s| == 10 then Some(Instant(date, MIDNIGHT, 0))
      else if |s| == 20 && s[10] == 'T' && s[19] == 'Z' && ClockFromText(s[11..19]).Some? then
        Some(Instant(date, ClockFromText(s[11..19]).value, 0))
      else if |s| == 24 && s[10] == 'T' && s[19] == '.' && s[23] == 'Z' && AllDigits(s[20..23])
           && ClockFromText(s[11..19]).Some? then
        Some(Instant(date, ClockFromText(s[11..19]).value, DigitsValue(s[20..23]) * 1000))
      else None
  }

  lemma BoundRoundTrip(b: Bound)
    requires ValidBound(b)
    ensures ParseBound(Show(b)) == Some(At(b))
  {
    hide DateText, DateFromIso, ClockText, ClockFromText, DigitsValue, Pad, Pow10, Valid, AllDigits;
    DateIsoRoundTrip(b.date);
    match b
    case DayBound(date) => assert DateText(date) + "" == DateText(date);
    case SecondBound(date, clock) => SecondShape(DateText(date), ClockText(clock)); ClockRoundTrip(clock);
    case MilliBound(date, clock, milli) =>
      MilliShape(DateText(date), ClockText(clock), Pad(3, milli));
      ClockRoundTrip(clock);
      Powers();
      PadValue(3, milli);
  }

  lemma SecondShape(date: string, clock: string)
    requires |date| == 10 && |clock| == 8
    ensures var s := date + ("T" + clock + "Z");
            |s| == 20 && s[..10] == date && s[10] == 'T' && s[11..19] == clock && s[19] == 'Z'
  {
  }

  lemma MilliShape(date: string, clock: string, milli: string)
    requires |date| == 10 && |clock| == 8 && |milli| == 3
    ensures var s := date + ("T" + clock + "." + milli + "Z");
            && |s| == 24 && s[..10] == date && s[10] == 'T' && s[11..19] == clock
            && s[19] == '.' && s[20..23] == milli && s[23] == 'Z'
  {
  }

  // ---------- string order is time order ----------

  /** Three padded fields with a separator between them compare field by field. */
  lemma FieldsOrder(j: nat, k: nat, sep: string, a: (nat, nat, nat), b: (nat, nat, nat), x: string, y: string)
    requires a.0 < Pow10(j) && b.0 < Pow10(j)
    requires a.1 < Pow10(k) && b.1 < Pow10(k) && a.2 < Pow10(k) && b.2 < Pow10(k)
    ensures Less(Pad(j, a.0) + sep + Pad(k, a.1) + sep + Pad(k, a.2) + x,
                 Pad(j, b.0) + sep + Pad(k, b.1) + sep + Pad(k, b.2) + y)
       <==> || a.0 < b.0
            || (a.0 == b.0 && (a.1 < b.1 || (a.1 == b.1 && (a.2 < b.2 || (a.2 == b.2 && Less(x, y))))))
  {
    var a2, b2 := Pad(k, a.2) + x, Pad(k, b.2) + y;
    var a1, b1 := Pad(k, a.1) + (sep + a2), Pad(k, b.1) + (sep + b2);
    Reassociate(Pad(j, a.0), sep, Pad(k, a.1), Pad(k, a.2), x);
    Reassociate(Pad(j, b.0), sep, Pad(k, b.1), Pad(k, b.2), y);
    PadOrder(k, a.2, b.2, x, y);
    LessAfterPrefix(sep, a2, b2);
    PadOrder(k, a.1, b.1, sep + a2, sep + b2);
    LessAfterPrefix(sep, a1, b1);
    PadOrder(j, a.0, b.0, sep + a1, sep + b1);
  }

  lemma Reassociate(p: string, sep: string, q: string, r: string, x: string)
    ensures p + sep + q + sep + r + x == p + (sep + (q + (sep + (r + x))))
  {
    assert p + sep + q + sep + r + x == p + sep + q + sep + (r + x);
    assert p + sep + q + sep + (r + x) == p + sep + q + (sep + (r + x));
    assert p + sep + q + (sep + (r + x)) == p + sep + (q + (sep + (r + x)));
  }

  lemma DateTextOrder(a: Date, b: Date, x: string, y: string)
    requires Valid(a) && Valid(b)
    ensures Less(DateText(a) + x, DateText(b) + y) <==> DateLess(a, b) || (a == b && Less(x, y))
  {
    Powers();
    FieldsOrder(4, 2, "-", (a.y, a.m, a.d), (b.y, b.m, b.d), x, y);
  }

  lemma ClockTextOrder(c: Clock, d: Clock, x: string, y: string)
    requires ValidClock(c) && ValidClock(d)
    ensures Less(ClockText(c) + x, ClockText(d) + y) <==> ClockLess(c, d) || (c == d && Less(x, y))
  {
    Powers();
    FieldsOrder(2, 2, ":", (c.hour, c.minute, c.second), (d.hour, d.minute, d.second), x, y);
  }

  /** One boundary is a bare second, the other the same second with a nonzero fraction:
    * '.' sorts before 'Z', so the later instant is the smaller string. */
  predicate Clash(a: Bound, b: Bound) {
    || (a.SecondBound? && b.MilliBound? && a.date == b.date && a.clock == b.clock && b.milli > 0)
    || (a.MilliBound? && b.SecondBound? && a.date == b.date && a.clock == b.clock && a.milli > 0)
  }

  predicate OrdersAgree(a: Bound, b: Bound)
    requires ValidBound(a) && ValidBound(b)
  {
    && (Less(Show(a), Show(b)) ==> !Before(At(b), At(a)))
    && (Before(At(a), At(b)) ==> Less(Show(a), Show(b)))
  }

  lemma TailOrder(a: Bound, b: Bound)
    requires ValidBound(a) && ValidBound(b) && !a.DayBound? && !b.DayBound?
    ensures Less(Tail(a), Tail(b)) <==>
            || ClockLess(a.clock, b.clock)
            || (a.clock == b.clock && a.MilliBound? && (b.SecondBound? || a.milli < b.milli))
  {
    hide ClockText, Pad, Pow10;
    var x := if a.SecondBound? then "Z" else "." + (Pad(3, a.milli) + "Z");
    var y := if b.SecondBound? then "Z" else "." + (Pad(3, b.milli) + "Z");
    assert Tail(a) == "T" + (ClockText(a.clock) + x);
    assert Tail(b) == "T" + (ClockText(b.clock) + y);
    LessAfterPrefix("T", ClockText(a.clock) + x, ClockText(b.clock) + y);
    ClockTextOrder(a.clock, b.clock, x, y);
    LessIrreflexive("Z");
    if a.MilliBound? && b.MilliBound? { MilliOrder(a.milli, b.milli); }
  }

  lemma MilliOrder(a: nat, b: nat)
    requires a < 1000 && b < 1000
    ensures Less("." + (Pad(3, a) + "Z"), "." + (Pad(3, b) + "Z")) <==> a < b
  {
    hide Pad, Pow10;
    LessAfterPrefix(".", Pad(3, a) + "Z", Pad(3, b) + "Z");
    Powers();
    PadOrder(3, a, b, "Z", "Z");
    LessIrreflexive("Z");
  }

  /** Comparing boundaries as strings is comparing them as instants, except for a clash. */
  lemma IsoOrder(a: Bound, b: Bound)
    requires ValidBound(a) && ValidBound(b)
    ensures OrdersAgree(a, b) && OrdersAgree(b, a) <==> !Clash(a, b)
  {
    DateTextOrder(a.date, b.date, Tail(a), Tail(b));
    DateTextOrder(b.date, a.date, Tail(b), Tail(a));
    if !a.DayBound? && !b.DayBound? {
      TailOrder(a, b);
      TailOrder(b, a);
    }
  }

  // ---------- date ranges and their names ----------

  datatype DateRange = DateRange(start: Date, end: Date)

  datatype HourRange = HourRange(day: Date, hour: nat)

  function YearRange(y: int): DateRange { DateRange(Date(y, 1, 1), Date(y + 1, 1, 1)) }

  function MonthRange(y: int, m: int): DateRange {
    DateRange(Date(y, m, 1), if m == 12 then Date(y + 1, 1, 1) else Date(y, m + 1, 1))
  }

  function DayRange(day: Date): DateRange
    requires Valid(day) && day != LAST_DATE
  {
    DateRange(day, NextDay(day))
  }

  /** `iso_boundary`: midnight UTC. */
  function IsoBoundary(date: Date): Bound { SecondBound(date, MIDNIGHT) }

  /** `HourRange.start_iso` and `HourRange.end_iso`. */
  function HourStart(hr: HourRange): Bound { SecondBound(hr.day, Clock(hr.hour, 0, 0)) }

  function HourEnd(hr: HourRange): Bound
    requires Valid(hr.day) && hr.day != LAST_DATE
  {
    if hr.hour == 23 then IsoBoundary(NextDay(hr.day)) else SecondBound(hr.day, Clock(hr.hour + 1, 0, 0))
  }

  function YearName(y: nat): string { Str(y) }

  function MonthName(y: nat, m: nat): string { Pad(4, y) + "-" + Pad(2, m) }

  function HourName(h: nat): string { Pad(2, h) }

  predicate ValidRange(r: DateRange) { Valid(r.start) && Valid(r.end) && DateLess(r.start, r.end) }

  /** `date_range_from_parts`; `parts[0]` names the view and is not looked at. */
  function DateRangeFromParts(parts: seq<string>): (r: Option<DateRange>)
    ensures r.Some? ==> ValidRange(r.value) && 2 <= |parts| <= 4
    ensures r.Some? && |parts| == 2 ==> r.value.start.y < MAX_YEAR
  {
    if |parts| < 2 || |parts[1]| != 4 then None
    else if |parts| == 2 then
      if AllDigits(parts[1]) then
        var y := DigitsValue(parts[1]);
        if MIN_YEAR <= y < MAX_YEAR then Some(YearRange(y)) else None
      else None
    else if |parts[2]| != 7 || !AllDigits(parts[1]) then None
    else if |parts| == 3 then
      if StartsWith(parts[2], parts[1] + "-") then MonthRangeFromName(parts[2]) else None
    else if |parts| == 4 && |parts[3]| == 10 && StartsWith(parts[3], parts[2] + "-") then
      match DateFromIso(parts[3])
      case None => None
      case Some(day) => if day == LAST_DATE then None else Some(DayRange(day))
    else None
  }

  /** `year, month = [int(value) for value in name.split("-")]` and the range built from them. */
  function MonthRangeFromName(name: string): (r: Option<DateRange>)
    ensures r.Some? ==> ValidRange(r.value)
  {
    var pieces := Split(name, '-');
    if |pieces| != 2 then None
    else match (PyInt(pieces[0]), PyInt(pieces[1]))
      case (Some(y), Some(m)) => MonthRangeOf(y, m)
      case _ => None
  }

  function MonthRangeOf(y: int, m: int): (r: Option<DateRange>)
    ensures r.Some? ==> ValidRange(r.value)
    ensures 1 <= y < MAX_YEAR && 1 <= m <= 12 ==> r == Some(MonthRange(y, m))
  {
    if 1 <= m <= 12 && ValidRange(MonthRange(y, m)) then Some(MonthRange(y, m)) else None
  }

  /** `hour_range_from_parts`. */
  function HourRangeFromParts(parts: seq<string>): (r: Option<HourRange>)
    ensures r.Some? ==> Valid(r.value.day) && r.value.day != LAST_DATE && r.value.hour < 24 && |parts| == 5
  {
    if |parts| != 5 || |parts[4]| != 2 || !AllDigits(parts[4]) then None
    else match DateRangeFromParts(parts[..4])
      case None => None
      case Some(range) =>
        var h := DigitsValue(parts[4]);
        if h <= 23 then Some(HourRange(range.start, h)) else None
  }

  /** Which range a path names, exactly. A year: four digits. A month: the year, a dash, and what `int`
    * reads as 1 to 12. A day: its printed date, under four digits and seven characters it begins with. */
  lemma RangeOfParts(parts: seq<string>, r: DateRange)
    ensures |parts| == 2 ==>
              (DateRangeFromParts(parts) == Some(r)
               <==> IsYearText(parts[1]) && 1 <= DigitsValue(parts[1]) <= 9998 && r == YearRange(DigitsValue(parts[1])))
    ensures |parts| == 3 ==>
              (DateRangeFromParts(parts) == Some(r)
               <==> && IsYearText(parts[1]) && NamesMonth(parts[1], parts[2]) && ValidRange(r)
                    && r == MonthRange(DigitsValue(parts[1]), PyInt(parts[2][5..]).value))
    ensures |parts| == 4 ==>
              (DateRangeFromParts(parts) == Some(r)
               <==> && IsYearText(parts[1]) && |parts[2]| == 7 && StartsWith(parts[3], parts[2] + "-")
                    && Valid(r.start) && r.start != LAST_DATE && parts[3] == DateText(r.start)
                    && r == DayRange(r.start))
    ensures !(2 <= |parts| <= 4) ==> DateRangeFromParts(parts) == None
  {
    if |parts| == 3 && IsYearText(parts[1]) && |parts[2]| == 7 && StartsWith(parts[2], parts[1] + "-") {
      MonthOfName(parts[1], parts[2]);
    }
    if |parts| == 4 {
      if DateFromIso(parts[3]).Some? { DateIsoOnly(parts[3]); }
      if Valid(r.start) { DateIsoRoundTrip(r.start); }
      hide DateFromIso, DateText, NextDay;
    }
  }

  predicate IsYearText(s: string) { |s| == 4 && AllDigits(s) }

  predicate NamesMonth(year: string, name: string) {
    && |name| == 7 && StartsWith(name, year + "-") && |year| == 4
    && '-' !in name[5..] && PyInt(name[5..]).Some? && 1 <= PyInt(name[5..]).value <= 12
  }

  lemma MonthOfName(year: string, name: string)
    requires IsYearText(year) && |name| == 7 && StartsWith(name, year + "-")
    ensures MonthRangeFromName(name)
         == if NamesMonth(year, name) then MonthRangeOf(DigitsValue(year), PyInt(name[5..]).value) else None
  {
    hide PyInt, MonthRange;
    assert name[..5] == year + "-" && name == year + ['-'] + name[5..];
    SplitAtSeparator(year, '-', name[5..]);
    PyIntDigits(year);
    if '-' in name[5..] {
      SplitTwice(name[5..], '-');
    } else {
      SplitNoSeparator(name[5..], '-');
    }
  }

  lemma {:induction false} SplitTwice(s: string, sep: char)
    requires sep in s
    ensures |Split(s, sep)| >= 2
  {
    if s[0] != sep { SplitTwice(s[1..], sep); }
  }

  // ---------- printed names parse back ----------

  /** A printed year parses back exactly for the years 1000 to 9998. */
  lemma YearNameParses(view: string, y: nat)
    ensures DateRangeFromParts([view, YearName(y)]) == Some(YearRange(y)) <==> 1000 <= y <= 9998
  {
    StrFour(y);
    StrValue(y);
  }

  lemma MonthNameParses(view: string, y: nat, m: nat)
    requires 1000 <= y <= 9998 && 1 <= m <= 12
    ensures DateRangeFromParts([view, YearName(y), MonthName(y, m)]) == Some(MonthRange(y, m))
  {
    hide Str, Pad, Pow10, DigitsValue, MonthRangeFromName, MonthRange, DateFromIso;
    StrFour(y);
    Powers();
    PadValue(4, y);
    PadValue(2, m);
    MonthTextParses(Pad(4, y), Pad(2, m));
    assert MonthName(y, m)[..5] == YearName(y) + "-";
  }

  lemma MonthTextParses(y: string, m: string)
    requires AllDigits(y) && AllDigits(m) && y != [] && m != []
    requires 1 <= DigitsValue(m) <= 12 && 1 <= DigitsValue(y) < 9999
    ensures MonthRangeFromName(y + "-" + m) == Some(MonthRange(DigitsValue(y), DigitsValue(m)))
  {
    var name := y + ['-'] + m;
    assert y + "-" + m == name;
    SplitAtSeparator(y, '-', m);
    SplitNoSeparator(m, '-');
    assert Split(name, '-') == [y, m];
    PyIntDigits(y);
    PyIntDigits(m);
  }

  lemma DayNameParses(view: string, day: Date)
    requires Valid(day) && 1000 <= day.y <= 9998
    ensures DateRangeFromParts([view, YearName(day.y), MonthName(day.y, day.m), DateText(day)]) == Some(DayRange(day))
  {
    hide Str, Pad, DigitsValue, MonthRangeFromName, DateFromIso, NextDay;
    StrFour(day.y);
    DateIsoRoundTrip(day);
    assert DateText(day)[..8] == MonthName(day.y, day.m) + "-";
  }

  lemma HourNameParses(view: string, day: Date, h: nat)
    requires Valid(day) && 1000 <= day.y <= 9998 && h < 24
    ensures HourRangeFromParts([view, YearName(day.y), MonthName(day.y, day.m), DateText(day), HourName(h)])
         == Some(HourRange(day, h))
  {
    var parts := [view, YearName(day.y), MonthName(day.y, day.m), DateText(day), HourName(h)];
    assert parts[..4] == [view, YearName(day.y), MonthName(day.y, day.m), DateText(day)];
    DayNameParses(view, day);
    Powers();
    PadValue(2, h);
  }

  /** The parser accepts more than is listed: a day under any year and month folder
  * that agree with it on the month name only. */
  lemma DayUnderAnyYearParses(view: string, wrong: string, day: Date)
    requires Valid(day) && 1000 <= day.y <= 9998 && |wrong| == 4 && AllDigits(wrong)
    ensures DateRangeFromParts([view, wrong, MonthName(day.y, day.m), DateText(day)]) == Some(DayRange(day))
  {
    DateIsoRoundTrip(day);
    assert DateText(day)[..8] == MonthName(day.y, day.m) + "-";
  }

  /** Nor need a month be written as it is listed: `int` takes a sign. */
  lemma SignedMonthParses(view: string, y: nat, m: nat)
    requires 1000 <= y <= 9998 && 1 <= m <= 9
    ensures DateRangeFromParts([view, YearName(y), YearName(y) + "-+" + Str(m)]) == Some(MonthRange(y, m))
    ensures YearName(y) + "-+" + Str(m) != MonthName(y, m)
  {
    hide Str, Pad, Pow10, DigitsValue, MonthRangeFromName, MonthRange, DateFromIso;
    StrFour(y);
    StrValue(y);
    StrValue(m);
    SignedTextParses(Str(y), Str(m));
    var name := YearName(y) + "-+" + Str(m);
    assert name[..5] == YearName(y) + "-" && name[5] == '+';
    assert IsDigit(MonthName(y, m)[5]);
  }

  lemma SignedTextParses(y: string, m: string)
    requires AllDigits(y) && AllDigits(m) && y != [] && m != []
    requires 1 <= DigitsValue(m) <= 12 && 1 <= DigitsValue(y) < 9999
    ensures MonthRangeFromName(y + "-+" + m) == Some(MonthRange(DigitsValue(y), DigitsValue(m)))
  {
    hide PyInt, DigitsValue, MonthRange;
    assert y + "-+" + m == y + ['-'] + ("+" + m);
    SplitAtSeparator(y, '-', "+" + m);
    SplitNoSeparator("+" + m, '-');
    PyIntDigits(y);
    PyIntSigned(m);
  }
}
