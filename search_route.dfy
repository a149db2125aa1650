/** The search endpoint's status logic (app/api/search/route.ts): the HHMM
    parser and HH:MM formatter, the weekly opening-hours evaluator used for
    date/time searches, and the `open_now` mapping used for "now" searches. */
module SearchRoute {
  import opened Wrappers

  /* ---------------- Data model ---------------- */

  datatype OpenStatus = Open | Break | Closed | Unknown

  /** What the evaluator returns; the two optional fields are only filled on a break. */
  datatype StatusResult = StatusResult(status: OpenStatus, minutesToOpen: Option<int>, breakTime: Option<string>)

  /** A day of week (0 = Sunday) and a four-digit `HHMM` time, as the places service sends them. */
  datatype DayTime = DayTime(day: int, time: string)

  /** One weekly opening period; the closing end may be missing. */
  datatype OpeningPeriod = OpeningPeriod(open: DayTime, close: Option<DayTime>)

  /** The `opening_hours` object; its `periods` list may be missing. */
  datatype OpeningHours = OpeningHours(periods: Option<seq<OpeningPeriod>>)

  /** A same-day opening interval in minutes of the day, half-open: [open, close). */
  datatype Range = Range(open: nat, close: nat)

  type Weekday = d: int | 0 <= d < 7
  type MinuteOfDay = m: int | 0 <= m < MinutesPerDay

  /** The moment a search is about: the day of week and minute of the day of a local date. */
  datatype Target = Target(day: Weekday, minute: MinuteOfDay)

  const MinutesPerDay: int := 24 * 60

  /** The closing time assumed for a period without one. */
  const DefaultClose: string := "2359"

  /** The separator of the break window string (an en dash). */
  const BreakDash: string := "\U{2013}"

  /* ---------------- toMinutes / toHHMM ---------------- */

  predicate IsDigit(c: char) { '0' <= c <= '9' }

  function DigitValue(c: char): nat
    requires IsDigit(c)
  {
    c as int - '0' as int
  }

  function DigitChar(d: nat): char
    requires d < 10
  {
    (d + '0' as int) as char
  }

  /** A well-formed time field: exactly four decimal digits. */
  predicate IsHHMM(t: string)
  {
    |t| == 4 && forall i :: 0 <= i < 4 ==> IsDigit(t[i])
  }

  /** The value `parseInt` gives for the hour part `t.slice(0, 2)`. */
  function HourPart(t: string): nat
    requires IsHHMM(t)
  {
    DigitValue(t[0]) * 10 + DigitValue(t[1])
  }

  /** The value `parseInt` gives for the minute part `t.slice(2, 4)`. */
  function MinutePart(t: string): nat
    requires IsHHMM(t)
  {
    DigitValue(t[2]) * 10 + DigitValue(t[3])
  }

  /** A time field that names a real clock time: hours below 24, minutes below 60. */
  predicate IsClockTime(t: string)
  {
    IsHHMM(t) && HourPart(t) < 24 && MinutePart(t) < 60
  }

  /** `toMinutes`: `HHMM` to minutes since midnight. */
  function ToMinutes(t: string): (r: nat)
    requires IsHHMM(t)
    ensures r <= 99 * 60 + 99
    ensures IsClockTime(t) ==> r < MinutesPerDay
  {
    HourPart(t) * 60 + MinutePart(t)
  }

  /** `String(n)` for a natural number: its decimal digits, no leading zeros. */
  function DecimalString(n: nat): (r: string)
    ensures |r| >= 1
    ensures forall i :: 0 <= i < |r| ==> IsDigit(r[i])
    ensures (n < 10) == (|r| == 1)
  {
    if n < 10 then [DigitChar(n)] else DecimalString(n / 10) + [DigitChar(n % 10)]
  }

  /** `s.padStart(2, "0")`. */
  function PadStart2(s: string): string
  {
    if |s| == 0 then "00" else if |s| == 1 then "0" + s else s
  }

  /** `String(n).padStart(2, "0")`. */
  function TwoDigits(n: nat): (r: string)
    ensures n < 100 ==> r == [DigitChar(n / 10), DigitChar(n % 10)]
    ensures n >= 100 ==> |r| > 2
  {
    var r := PadStart2(DecimalString(n));
    if n < 10 then
      r
    else if n < 100 then
      assert DecimalString(n / 10) == [DigitChar(n / 10)];
      r
    else
      assert |DecimalString(n / 10)| >= 2;
      r
  }

  /** `toHHMM`: minutes since midnight to `HH:MM` (the hour part grows past two digits from 100 hours on). */
  function ToHHMM(min: nat): (r: string)
    ensures min < 100 * 60 ==> |r| == 5 && r[2] == ':' && IsHHMM(r[..2] + r[3..])
  {
    TwoDigits(min / 60) + ":" + TwoDigits(min % 60)
  }

  /** Removes the colon of an `HH:MM` string, giving back an `HHMM` field. */
  function Uncolon(s: string): string
    requires |s| == 5
  {
    s[..2] + s[3..]
  }

  lemma DigitRoundTrip(c: char)
    requires IsDigit(c)
    ensures DigitChar(DigitValue(c)) == c
  {
  }

  /** Formatting a clock time's minutes gives back its digits with a colon. */
  lemma {:induction false} ClockTimeRoundTrip(t: string)
    requires IsClockTime(t)
    ensures ToHHMM(ToMinutes(t)) == t[..2] + ":" + t[2..]
  {
    var m := ToMinutes(t);
    assert m / 60 == HourPart(t) && m % 60 == MinutePart(t);
    DigitRoundTrip(t[0]);
    DigitRoundTrip(t[1]);
    DigitRoundTrip(t[2]);
    DigitRoundTrip(t[3]);
    assert HourPart(t) / 10 == DigitValue(t[0]) && HourPart(t) % 10 == DigitValue(t[1]);
    assert MinutePart(t) / 10 == DigitValue(t[2]) && MinutePart(t) % 10 == DigitValue(t[3]);
    assert TwoDigits(m / 60) == t[..2];
    assert TwoDigits(m % 60) == t[2..];
  }

  /** Every minute of the day formats as a clock time that parses back to that minute. */
  lemma {:induction false} MinutesRoundTrip(m: MinuteOfDay)
    ensures |ToHHMM(m)| == 5 && ToHHMM(m)[2] == ':'
    ensures IsClockTime(Uncolon(ToHHMM(m)))
    ensures ToMinutes(Uncolon(ToHHMM(m))) == m
  {
    var h, mm := m / 60, m % 60;
    assert h < 24 && mm < 60;
    var u := Uncolon(ToHHMM(m));
    assert u == [DigitChar(h / 10), DigitChar(h % 10), DigitChar(mm / 10), DigitChar(mm % 10)];
    assert HourPart(u) == h && MinutePart(u) == mm;
  }

  /* ---------------- judgeOpenStatus ---------------- */

  /** `p.close?.time ?? "2359"`: the closing day is never looked at. */
  function CloseTime(p: OpeningPeriod): string
  {
    if p.close.Some? then p.close.value.time else DefaultClose
  }

  predicate WellFormedPeriod(p: OpeningPeriod)
  {
    IsHHMM(p.open.time) && IsHHMM(CloseTime(p))
  }

  /** The times the evaluator parses for `day` are well-formed (periods of other days are never parsed). */
  predicate WellFormedOn(hours: Option<OpeningHours>, day: int)
  {
    hours.Some? && hours.value.periods.Some? ==>
      forall p :: p in hours.value.periods.value && p.open.day == day ==> WellFormedPeriod(p)
  }

  function PeriodRange(p: OpeningPeriod): (r: Range)
    requires WellFormedPeriod(p)
  {
    Range(ToMinutes(p.open.time), ToMinutes(CloseTime(p)))
  }

  predicate Covers(r: Range, m: int)
  {
    r.open <= m < r.close
  }

  /** The filter on `open.day === day`. */
  function Todays(ps: seq<OpeningPeriod>, day: int): (r: seq<OpeningPeriod>)
    ensures forall p :: p in r <==> p in ps && p.open.day == day
    ensures |r| <= |ps|
  {
    if ps == [] then []
    else if ps[0].open.day == day then [ps[0]] + Todays(ps[1..], day)
    else Todays(ps[1..], day)
  }

  /** The map of today's periods to their minute ranges. */
  function Ranges(todays: seq<OpeningPeriod>): (r: seq<Range>)
    requires forall p :: p in todays ==> WellFormedPeriod(p)
    ensures |r| == |todays|
    ensures forall i :: 0 <= i < |r| ==> r[i] == PeriodRange(todays[i])
  {
    if todays == [] then [] else [PeriodRange(todays[0])] + Ranges(todays[1..])
  }

  /** `ranges.some(r => nowMin >= r.open && nowMin < r.close)`. */
  function AnyCovers(rs: seq<Range>, m: int): (b: bool)
    ensures b <==> exists r :: r in rs && Covers(r, m)
  {
    if rs == [] then false else Covers(rs[0], m) || AnyCovers(rs[1..], m)
  }

  /** `ranges.filter(r => r.open > nowMin)`. */
  function OpeningAfter(rs: seq<Range>, m: int): (r: seq<Range>)
    ensures forall x :: x in r <==> x in rs && x.open > m
  {
    if rs == [] then []
    else if rs[0].open > m then [rs[0]] + OpeningAfter(rs[1..], m)
    else OpeningAfter(rs[1..], m)
  }

  /** `.sort((a, b) => a.open - b.open)[0].open`: the least opening minute. */
  function EarliestOpen(rs: seq<Range>): (r: nat)
    requires |rs| > 0
    ensures exists x :: x in rs && x.open == r
    ensures forall x :: x in rs ==> r <= x.open
  {
    if |rs| == 1 then rs[0].open
    else
      var rest := EarliestOpen(rs[1..]);
      if rs[0].open <= rest then rs[0].open else rest
  }

  function UnknownResult(): StatusResult { StatusResult(Unknown, None, None) }

  /** A break from `nowMin` until `next`: the wait in minutes and the `HH:MM–HH:MM` window. */
  function BreakResult(nowMin: nat, next: nat): StatusResult
  {
    StatusResult(Break, Some(next - nowMin), Some(ToHHMM(nowMin) + BreakDash + ToHHMM(next)))
  }

  /** The part of `judgeOpenStatus` after today's ranges are known: open, else the next opening, else closed. */
  function StatusFromRanges(ranges: seq<Range>, nowMin: MinuteOfDay): (r: StatusResult)
    ensures r.status == Open <==> exists x :: x in ranges && Covers(x, nowMin)
    ensures r.status == Break <==>
      (forall x :: x in ranges ==> !Covers(x, nowMin)) && exists x :: x in ranges && x.open > nowMin
    ensures r.status != Unknown
    ensures r.minutesToOpen.Some? <==> r.status == Break
    ensures r.breakTime.Some? <==> r.status == Break
    ensures r.status == Break ==> r.minutesToOpen.value > 0
  {
    if AnyCovers(ranges, nowMin) then
      StatusResult(Open, None, None)
    else
      var later := OpeningAfter(ranges, nowMin);
      if |later| > 0 then
        BreakResult(nowMin, EarliestOpen(later))
      else
        StatusResult(Closed, None, None)
  }

  /** `judgeOpenStatus(openingHours, target)`. */
  function JudgeOpenStatus(hours: Option<OpeningHours>, target: Target): (r: StatusResult)
    requires WellFormedOn(hours, target.day)
    ensures r.status == Unknown <==> hours.None? || hours.value.periods.None?
    ensures r.minutesToOpen.Some? <==> r.status == Break
    ensures r.breakTime.Some? <==> r.status == Break
  {
    if hours.None? || hours.value.periods.None? then
      UnknownResult()
    else
      var todays := Todays(hours.value.periods.value, target.day);
      if |todays| == 0 then
        StatusResult(Closed, None, None)
      else
        StatusFromRanges(Ranges(todays), target.minute)
  }

  /* ---------------- What the evaluator promises ---------------- */

  /** Some period of the target's day is open at the target minute. */
  ghost predicate OpenAt(ps: seq<OpeningPeriod>, t: Target)
  {
    exists p :: p in ps && p.open.day == t.day && WellFormedPeriod(p) && Covers(PeriodRange(p), t.minute)
  }

  /** Some period of the target's day opens strictly after the target minute. */
  ghost predicate OpensLater(ps: seq<OpeningPeriod>, t: Target)
  {
    exists p :: p in ps && p.open.day == t.day && WellFormedPeriod(p) && PeriodRange(p).open > t.minute
  }

  function WithPeriods(ps: seq<OpeningPeriod>): Option<OpeningHours>
  {
    Some(OpeningHours(Some(ps)))
  }

  /** A range is one of today's iff it is the range of some period of the target's day. */
  lemma {:induction false} RangeOfToday(ps: seq<OpeningPeriod>, day: int, x: Range)
    requires forall p :: p in ps && p.open.day == day ==> WellFormedPeriod(p)
    ensures x in Ranges(Todays(ps, day)) <==>
      exists p :: p in ps && p.open.day == day && WellFormedPeriod(p) && PeriodRange(p) == x
  {
    var todays := Todays(ps, day);
    var rs := Ranges(todays);
    if exists p :: p in ps && p.open.day == day && WellFormedPeriod(p) && PeriodRange(p) == x {
      var p :| p in ps && p.open.day == day && WellFormedPeriod(p) && PeriodRange(p) == x;
      var i :| 0 <= i < |todays| && todays[i] == p;
      assert rs[i] == x;
    }
  }

  /** A `periods` list with no period opening on the target's day, the empty list included, means `closed`. */
  lemma {:induction false} ClosedWithoutPeriodsToday(ps: seq<OpeningPeriod>, t: Target)
    requires forall p :: p in ps ==> p.open.day != t.day
    ensures JudgeOpenStatus(WithPeriods(ps), t) == StatusResult(Closed, None, None)
  {
    assert Todays(ps, t.day) == [] by {
      if Todays(ps, t.day) != [] {
        assert Todays(ps, t.day)[0] in Todays(ps, t.day);
      }
    }
  }

  /** `open` exactly when some range of the target's day holds the target minute. */
  lemma {:induction false} OpenIff(ps: seq<OpeningPeriod>, t: Target)
    requires WellFormedOn(WithPeriods(ps), t.day)
    ensures JudgeOpenStatus(WithPeriods(ps), t).status == Open <==> OpenAt(ps, t)
  {
    var rs := Ranges(Todays(ps, t.day));
    assert JudgeOpenStatus(WithPeriods(ps), t).status == Open <==> AnyCovers(rs, t.minute);
    if OpenAt(ps, t) {
      var p :| p in ps && p.open.day == t.day && WellFormedPeriod(p) && Covers(PeriodRange(p), t.minute);
      RangeOfToday(ps, t.day, PeriodRange(p));
    }
    if AnyCovers(rs, t.minute) {
      var x :| x in rs && Covers(x, t.minute);
      RangeOfToday(ps, t.day, x);
      var p :| p in ps && p.open.day == t.day && WellFormedPeriod(p) && PeriodRange(p) == x;
      assert Covers(PeriodRange(p), t.minute);
    }
  }

  /** Not open: `break` exactly when some range of the target's day opens later, `closed` otherwise. */
  lemma {:induction false} BreakOrClosedIff(ps: seq<OpeningPeriod>, t: Target)
    requires WellFormedOn(WithPeriods(ps), t.day)
    ensures JudgeOpenStatus(WithPeriods(ps), t).status == Break <==> !OpenAt(ps, t) && OpensLater(ps, t)
    ensures JudgeOpenStatus(WithPeriods(ps), t).status == Closed <==> !OpenAt(ps, t) && !OpensLater(ps, t)
    ensures JudgeOpenStatus(WithPeriods(ps), t).status != Unknown
  {
    OpenIff(ps, t);
    var rs := Ranges(Todays(ps, t.day));
    if OpensLater(ps, t) {
      var p :| p in ps && p.open.day == t.day && WellFormedPeriod(p) && PeriodRange(p).open > t.minute;
      RangeOfToday(ps, t.day, PeriodRange(p));
    }
    if x :| x in rs && x.open > t.minute {
      RangeOfToday(ps, t.day, x);
    }
  }

  /** The opening minute `judgeOpenStatus` picks is that of a period of the day and no later than any other later opening. */
  lemma {:induction false} NextOpeningIsEarliest(ps: seq<OpeningPeriod>, t: Target)
    requires WellFormedOn(WithPeriods(ps), t.day)
    ensures var later := OpeningAfter(Ranges(Todays(ps, t.day)), t.minute);
      |later| > 0 ==>
        && EarliestOpen(later) > t.minute
        && (exists p :: p in ps && p.open.day == t.day && WellFormedPeriod(p) && PeriodRange(p).open == EarliestOpen(later))
        && (forall p :: p in ps && p.open.day == t.day && WellFormedPeriod(p) && PeriodRange(p).open > t.minute
              ==> EarliestOpen(later) <= PeriodRange(p).open)
  {
    var later := OpeningAfter(Ranges(Todays(ps, t.day)), t.minute);
    if |later| > 0 {
      var next := EarliestOpen(later);
      var x :| x in later && x.open == next;
      RangeOfToday(ps, t.day, x);
      forall p | p in ps && p.open.day == t.day && WellFormedPeriod(p) && PeriodRange(p).open > t.minute
        ensures next <= PeriodRange(p).open
      {
        RangeOfToday(ps, t.day, PeriodRange(p));
      }
    }
  }

  /** A `break` is the break until the earliest of the day's later openings. */
  lemma {:induction false} BreakShape(ps: seq<OpeningPeriod>, t: Target)
    requires WellFormedOn(WithPeriods(ps), t.day)
    ensures JudgeOpenStatus(WithPeriods(ps), t).status == Break ==>
      && |OpeningAfter(Ranges(Todays(ps, t.day)), t.minute)| > 0
      && JudgeOpenStatus(WithPeriods(ps), t) ==
           BreakResult(t.minute, EarliestOpen(OpeningAfter(Ranges(Todays(ps, t.day)), t.minute)))
  {
    var todays := Todays(ps, t.day);
    if JudgeOpenStatus(WithPeriods(ps), t).status == Break {
      assert |todays| > 0;
    }
  }

  /** On a break the wait runs from the target minute to `next`, the earliest opening of the day after it,
      so it is positive, and the window is formatted from those two minutes. */
  lemma {:induction false} BreakDetails(ps: seq<OpeningPeriod>, t: Target) returns (next: nat)
    requires WellFormedOn(WithPeriods(ps), t.day)
    ensures JudgeOpenStatus(WithPeriods(ps), t).status == Break ==>
      && next > t.minute
      && (exists p :: p in ps && p.open.day == t.day && WellFormedPeriod(p) && PeriodRange(p).open == next)
      && (forall p :: p in ps && p.open.day == t.day && WellFormedPeriod(p) && PeriodRange(p).open > t.minute
            ==> next <= PeriodRange(p).open)
      && JudgeOpenStatus(WithPeriods(ps), t) == BreakResult(t.minute, next)
      && BreakResult(t.minute, next).minutesToOpen.Some?
      && BreakResult(t.minute, next).minutesToOpen.value == next - t.minute
      && BreakResult(t.minute, next).breakTime == Some(ToHHMM(t.minute) + BreakDash + ToHHMM(next))
  {
    BreakShape(ps, t);
    NextOpeningIsEarliest(ps, t);
    if JudgeOpenStatus(WithPeriods(ps), t).status == Break {
      next := EarliestOpen(OpeningAfter(Ranges(Todays(ps, t.day)), t.minute));
    } else {
      next := 0;
    }
  }

  /** A period without a closing time closes at 23:59, and the interval is half-open,
      so when every closing time of the day is a clock time the last minute is never `open`. */
  lemma {:induction false} LastMinuteNeverOpen(ps: seq<OpeningPeriod>, t: Target)
    requires WellFormedOn(WithPeriods(ps), t.day)
    requires t.minute == MinutesPerDay - 1
    requires forall p :: p in ps && p.open.day == t.day ==> IsClockTime(CloseTime(p))
    ensures JudgeOpenStatus(WithPeriods(ps), t).status != Open
  {
    OpenIff(ps, t);
  }

  /** Two period lists that agree on every opening day and on every opening and closing time. */
  predicate SameTimes(ps: seq<OpeningPeriod>, qs: seq<OpeningPeriod>)
  {
    |ps| == |qs| &&
    forall i :: 0 <= i < |ps| ==> ps[i].open == qs[i].open && CloseTime(ps[i]) == CloseTime(qs[i])
  }

  lemma SameTimesWellFormed(ps: seq<OpeningPeriod>, qs: seq<OpeningPeriod>, day: int)
    requires SameTimes(ps, qs)
    requires forall p :: p in ps && p.open.day == day ==> WellFormedPeriod(p)
    ensures forall q :: q in qs && q.open.day == day ==> WellFormedPeriod(q)
  {
    forall q | q in qs && q.open.day == day ensures WellFormedPeriod(q) {
      var i :| 0 <= i < |qs| && qs[i] == q;
      assert ps[i] in ps;
    }
  }

  lemma {:induction false} SameTimesRanges(ps: seq<OpeningPeriod>, qs: seq<OpeningPeriod>, day: int)
    requires SameTimes(ps, qs)
    requires forall p :: p in ps && p.open.day == day ==> WellFormedPeriod(p)
    requires forall q :: q in qs && q.open.day == day ==> WellFormedPeriod(q)
    ensures Ranges(Todays(ps, day)) == Ranges(Todays(qs, day))
  {
    if ps != [] {
      var p, q := ps[0], qs[0];
      assert SameTimes(ps[1..], qs[1..]);
      assert forall x :: x in ps[1..] ==> x in ps;
      assert forall x :: x in qs[1..] ==> x in qs;
      SameTimesRanges(ps[1..], qs[1..], day);
      var tp, tq := Todays(ps[1..], day), Todays(qs[1..], day);
      if p.open.day == day {
        assert p in ps && q in qs;
        assert Todays(ps, day) == [p] + tp && Todays(qs, day) == [q] + tq;
        assert ([p] + tp)[1..] == tp && ([q] + tq)[1..] == tq;
        assert PeriodRange(p) == PeriodRange(q);
      }
    }
  }

  /** The closing day is ignored: only opening days and the opening and closing times decide the result. */
  lemma {:induction false} CloseDayIgnored(ps: seq<OpeningPeriod>, qs: seq<OpeningPeriod>, t: Target)
    requires SameTimes(ps, qs)
    requires WellFormedOn(WithPeriods(ps), t.day)
    ensures WellFormedOn(WithPeriods(qs), t.day)
    ensures JudgeOpenStatus(WithPeriods(ps), t) == JudgeOpenStatus(WithPeriods(qs), t)
  {
    SameTimesWellFormed(ps, qs, t.day);
    SameTimesRanges(ps, qs, t.day);
  }

  /** A period that closes at or before it opens (one that runs past midnight) never makes the venue `open`:
      if every period of the day is like that, the status is `break` or `closed`. */
  lemma {:induction false} SpanningMidnightNeverOpen(ps: seq<OpeningPeriod>, t: Target)
    requires WellFormedOn(WithPeriods(ps), t.day)
    requires forall p :: p in ps && p.open.day == t.day ==> PeriodRange(p).close <= PeriodRange(p).open
    ensures JudgeOpenStatus(WithPeriods(ps), t).status != Open
  {
    OpenIff(ps, t);
  }

  /** The one period of the overnight example: Friday 22:00 to Saturday 02:00. */
  function OvernightPeriods(): seq<OpeningPeriod>
  {
    [OpeningPeriod(DayTime(5, "2200"), Some(DayTime(6, "0200")))]
  }

  lemma OvernightRanges()
    ensures WellFormedOn(WithPeriods(OvernightPeriods()), 5)
    ensures Ranges(Todays(OvernightPeriods(), 5)) == [Range(1320, 120)]
  {
    var ps := OvernightPeriods();
    assert IsHHMM("2200") && IsHHMM("0200");
    assert ToMinutes("2200") == 1320 && ToMinutes("0200") == 120;
    assert Todays(ps, 5) == ps;
  }

  lemma OvernightWindow()
    ensures ToHHMM(21 * 60) == "21:00" && ToHHMM(1320) == "22:00"
  {
    assert TwoDigits(21) == "21" && TwoDigits(22) == "22" && TwoDigits(0) == "00";
  }

  lemma OvernightInside()
    ensures JudgeOpenStatus(WithPeriods(OvernightPeriods()), Target(5, 23 * 60)).status == Closed
  {
    OvernightRanges();
    assert OpeningAfter([Range(1320, 120)], 23 * 60) == [];
  }

  lemma OvernightBefore()
    ensures JudgeOpenStatus(WithPeriods(OvernightPeriods()), Target(5, 21 * 60)) ==
      StatusResult(Break, Some(60), Some("21:00" + BreakDash + "22:00"))
  {
    OvernightRanges();
    assert OpeningAfter([Range(1320, 120)], 21 * 60) == [Range(1320, 120)];
    OvernightWindow();
  }

  /** A Friday 22:00 to Saturday 02:00 period: at Friday 23:00, inside it, the venue is reported `closed`,
      and at Saturday 01:00 too, since no period opens on Saturday; at Friday 21:00 it is on a
      one-hour break until 22:00. */
  lemma OvernightPeriodExample()
    ensures var ps := [OpeningPeriod(DayTime(5, "2200"), Some(DayTime(6, "0200")))];
      && JudgeOpenStatus(WithPeriods(ps), Target(5, 23 * 60)).status == Closed
      && JudgeOpenStatus(WithPeriods(ps), Target(6, 60)).status == Closed
      && JudgeOpenStatus(WithPeriods(ps), Target(5, 21 * 60)) ==
           StatusResult(Break, Some(60), Some("21:00" + BreakDash + "22:00"))
  {
    OvernightInside();
    OvernightBefore();
    assert Todays(OvernightPeriods(), 6) == [];
  }

  /* ---------------- How the endpoint picks a status ---------------- */

  /** `open_now === true ? open : open_now === false ? closed : unknown`;
      `None` stands for a missing `opening_hours`, a missing `open_now` or a non-boolean value. */
  function NowStatus(openNow: Option<bool>): (r: StatusResult)
    ensures r.minutesToOpen.None? && r.breakTime.None?
    ensures r.status == Open <==> openNow == Some(true)
    ensures r.status == Closed <==> openNow == Some(false)
    ensures r.status == Unknown <==> openNow.None?
  {
    match openNow
    case Some(true) => StatusResult(Open, None, None)
    case Some(false) => StatusResult(Closed, None, None)
    case None => UnknownResult()
  }

  predicate IsNowMode(mode: string) { mode == "now" }

  /** The request's visit date and time are used for the target only in `datetime` mode with both non-empty. */
  predicate UsesVisitTime(mode: string, visitDate: Option<string>, visitTime: Option<string>)
  {
    mode == "datetime" && visitDate.Some? && visitDate.value != "" && visitTime.Some? && visitTime.value != ""
  }

  /** The status fields of one hospital of the response (`openStatus`, `minutesToOpen ?? null`,
      `breakTime ?? null`): the search's `open_now` in "now" mode, the evaluator on the
      place's opening hours otherwise. */
  function HospitalStatus(mode: string, openNow: Option<bool>, details: Option<OpeningHours>, target: Target): (r: StatusResult)
    requires !IsNowMode(mode) ==> WellFormedOn(details, target.day)
    ensures IsNowMode(mode) ==> r.status != Break && r.minutesToOpen.None? && r.breakTime.None?
    ensures IsNowMode(mode) ==> (r.status == Unknown <==> openNow.None?)
    ensures !IsNowMode(mode) ==> (r.status == Unknown <==> details.None? || details.value.periods.None?)
  {
    if IsNowMode(mode) then NowStatus(openNow) else JudgeOpenStatus(details, target)
  }

  /** "now" mode never reports a break nor fills the wait or window, and never looks at opening hours or the target. */
  lemma NowModeIgnoresOpeningHours(openNow: Option<bool>, d1: Option<OpeningHours>, t1: Target, d2: Option<OpeningHours>, t2: Target)
    ensures var r := HospitalStatus("now", openNow, d1, t1);
      && r == HospitalStatus("now", openNow, d2, t2)
      && r.status != Break && r.minutesToOpen.None? && r.breakTime.None?
      && (r.status == Open <==> openNow == Some(true))
      && (r.status == Closed <==> openNow == Some(false))
  {
  }

  /** Any other mode never looks at `open_now`; the two sources are never mixed. */
  lemma OtherModeIgnoresOpenNow(mode: string, o1: Option<bool>, o2: Option<bool>, details: Option<OpeningHours>, target: Target)
    requires !IsNowMode(mode) && WellFormedOn(details, target.day)
    ensures HospitalStatus(mode, o1, details, target) == HospitalStatus(mode, o2, details, target)
    ensures HospitalStatus(mode, o1, details, target).status == Unknown <==>
      details.None? || details.value.periods.None?
  {
  }
}
