/**
 * Time values as a JavaScript `Date` holds them (milliseconds since
 * 1970-01-01T00:00:00Z, proleptic Gregorian calendar, UTC), the text
 * `toISOString()` writes for one, and the reading MySQL gives the
 * `YYYY-MM-DD HH:MM:SS` text that `calculateNextDueDate`
 * (services/taskmanager/taskService.js:193) hands it for a DATETIME column.
 */
module IsoTime {
  import opened Base
  import opened Decimal

  const MsPerDay: int := 86400000

  /** The largest distance from the epoch a `Date` can hold; beyond it the time value is NaN. */
  const MaxTime: int := 8640000000000000

  predicate Leap(y: int) {
    y % 4 == 0 && (y % 100 != 0 || y % 400 == 0)
  }

  function YearDays(y: int): (n: int)
    ensures n == 365 || n == 366
  {
    if Leap(y) then 366 else 365
  }

  /** Days from 1970-01-01 to January 1st of year `y`; negative before 1970. */
  function DaysBeforeYear(y: int): int
    decreases if y >= 1970 then y - 1970 else 1970 - y
  {
    if y == 1970 then 0
    else if y > 1970 then DaysBeforeYear(y - 1) + YearDays(y - 1)
    else DaysBeforeYear(y + 1) - YearDays(y)
  }

  lemma YearStep(y: int)
    ensures DaysBeforeYear(y + 1) == DaysBeforeYear(y) + YearDays(y)
  {
  }

  function MonthDays(y: int, m: int): (n: int)
    requires 1 <= m <= 12
    ensures 28 <= n <= 31
  {
    if m == 2 then (if Leap(y) then 29 else 28)
    else if m == 4 || m == 6 || m == 9 || m == 11 then 30
    else 31
  }

  /** Days of year `y` before the first of month `m`; month 13 stands for the next January. */
  function DaysBeforeMonth(y: int, m: int): int
    requires 1 <= m <= 13
  {
    var before := [0, 31, 59, 90, 120, 151, 181, 212, 243, 273, 304, 334, 365];
    before[m - 1] + (if m > 2 && Leap(y) then 1 else 0)
  }

  lemma MonthStep(y: int, m: int)
    requires 1 <= m <= 12
    ensures DaysBeforeMonth(y, m + 1) == DaysBeforeMonth(y, m) + MonthDays(y, m)
    ensures DaysBeforeMonth(y, 13) == YearDays(y)
  {
  }

  /**
   * The year holding day `r` counted from January 1st of year `y` (`r`
   * may be negative or past the year's end), and the day's index within it.
   */
  function YearWalk(y: int, r: int): (p: (int, int))
    ensures 0 <= p.1 < YearDays(p.0)
    ensures DaysBeforeYear(p.0) + p.1 == DaysBeforeYear(y) + r
    decreases if r < 0 then 400 - r else r
  {
    if r < 0 then
      YearStep(y - 1);
      YearWalk(y - 1, r + YearDays(y - 1))
    else if r >= YearDays(y) then
      YearStep(y);
      YearWalk(y + 1, r - YearDays(y))
    else (y, r)
  }

  /** The month holding day `r` counted from the first of month `m`, and the day's index within it. */
  function MonthWalk(y: int, m: int, r: int): (p: (int, int))
    requires 1 <= m <= 12 && 0 <= r && DaysBeforeMonth(y, m) + r < YearDays(y)
    ensures 1 <= p.0 <= 12 && 0 <= p.1 < MonthDays(y, p.0)
    ensures DaysBeforeMonth(y, p.0) + p.1 == DaysBeforeMonth(y, m) + r
    decreases 12 - m
  {
    MonthStep(y, m);
    if r < MonthDays(y, m) then (m, r)
    else MonthWalk(y, m + 1, r - MonthDays(y, m))
  }

  /** The calendar reading of a time value, as the `getUTC...` accessors give it. */
  datatype DateTime = DateTime(year: int, month: int, day: int, hour: int, minute: int, second: int, ms: int)

  predicate ValidFields(f: DateTime) {
    1 <= f.month <= 12 && 1 <= f.day <= MonthDays(f.year, f.month) &&
    0 <= f.hour < 24 && 0 <= f.minute < 60 && 0 <= f.second < 60 && 0 <= f.ms < 1000
  }

  /** The time value a calendar reading denotes. */
  function EpochMs(f: DateTime): int
    requires 1 <= f.month <= 12
  {
    (DaysBeforeYear(f.year) + DaysBeforeMonth(f.year, f.month) + f.day - 1) * MsPerDay
    + f.hour * 3600000 + f.minute * 60000 + f.second * 1000 + f.ms
  }

  /** The calendar reading of time value `t`: valid fields that denote `t` again. */
  function Fields(t: int): (f: DateTime)
    ensures ValidFields(f)
    ensures EpochMs(f) == t
  {
    var days, inDay := t / MsPerDay, t % MsPerDay;
    var (y, doy) := YearWalk(1970, days);
    var (m, d) := MonthWalk(y, 1, doy);
    var inHour := inDay % 3600000;
    var inMinute := inHour % 60000;
    DateTime(y, m, d + 1, inDay / 3600000, inHour / 60000, inMinute / 1000, inMinute % 1000)
  }

  lemma {:induction false} FieldsMillis(t: int)
    ensures Fields(t).ms == t % 1000
  {
    var f := Fields(t);
    var q := (DaysBeforeYear(f.year) + DaysBeforeMonth(f.year, f.month) + f.day - 1) * 86400
             + f.hour * 3600 + f.minute * 60 + f.second;
    assert t == q * 1000 + f.ms;
  }

  function Pad2(n: int): (s: string)
    requires 0 <= n < 100
    ensures |s| == 2 && AllDigits(s)
  {
    assert Pow10(2) == 100;
    PadDigits(n, 2)
  }

  function Pad3(n: int): (s: string)
    requires 0 <= n < 1000
    ensures |s| == 3 && AllDigits(s)
  {
    assert Pow10(3) == 1000;
    PadDigits(n, 3)
  }

  /**
   * The year field: four digits for years 0 to 9999, otherwise a sign and
   * six digits. (No year of a time value within `MaxTime` needs more than
   * six digits; the last branch is there only to make the function total.)
   */
  function YearText(y: int): (s: string)
    ensures 0 <= y <= 9999 ==> |s| == 4 && AllDigits(s)
    ensures !(0 <= y <= 9999) ==> |s| >= 2 && (s[0] == '+' || s[0] == '-')
  {
    assert Pow10(4) == 10000;
    assert Pow10(6) == 1000000;
    if 0 <= y <= 9999 then PadDigits(y, 4)
    else
      var sign := if y < 0 then "-" else "+";
      var mag := if y < 0 then -y else y;
      if mag < 1000000 then sign + PadDigits(mag, 6) else sign + NatToString(mag)
  }

  /** The date and time of day, with `sep` between them. */
  function Stamp(year: string, f: DateTime, sep: char): (s: string)
    requires ValidFields(f)
  {
    year + "-" + Pad2(f.month) + "-" + Pad2(f.day) + [sep] + Pad2(f.hour) + ":" + Pad2(f.minute) + ":" + Pad2(f.second)
  }

  /** `Date.prototype.toISOString`: a RangeError for a time value beyond `MaxTime`. */
  function ToIsoString(t: int): (r: Result<string, string>)
    ensures r.Err? <==> t < -MaxTime || t > MaxTime
    ensures r.Ok? ==> |r.value| >= 22
  {
    if t < -MaxTime || t > MaxTime then Err("Invalid time value")
    else
      var f := Fields(t);
      Ok(Stamp(YearText(f.year), f, 'T') + "." + Pad3(f.ms) + "Z")
  }

  /** `s.indexOf(a)`, with `|s|` for "not found". */
  function IndexOf(s: string, a: char): (k: nat)
    ensures k <= |s|
    ensures forall j :: 0 <= j < k ==> s[j] != a
    ensures k < |s| ==> s[k] == a
  {
    if s == [] || s[0] == a then 0 else 1 + IndexOf(s[1..], a)
  }

  /** `s.replace(a, b)` with a one-character pattern: only the first occurrence is replaced. */
  function ReplaceFirst(s: string, a: char, b: char): (r: string)
    ensures |r| == |s|
  {
    var k := IndexOf(s, a);
    if k == |s| then s else s[..k] + [b] + s[k + 1..]
  }

  /** `nextOccurrence.toISOString().slice(0, 19).replace('T', ' ')` */
  function DueDateText(t: int): (r: Result<string, string>)
    ensures r.Err? <==> ToIsoString(t).Err?
    ensures r.Ok? ==> |r.value| == 19
  {
    match ToIsoString(t)
    case Err(e) => Err(e)
    case Ok(s) => Ok(ReplaceFirst(s[..19], 'T', ' '))
  }

  /**
   * The DATETIME MySQL reads from `YYYY-MM-DD HH:MM:SS` text, as a time
   * value; `None` for text of any other shape or an impossible date.
   */
  function ParseDateTime(s: string): (r: Option<int>)
    ensures r.Some? ==> r.value % 1000 == 0
  {
    if |s| != 19 || s[4] != '-' || s[7] != '-' || s[10] != ' ' || s[13] != ':' || s[16] != ':' then None
    else if !(AllDigits(s[0..4]) && AllDigits(s[5..7]) && AllDigits(s[8..10]) &&
              AllDigits(s[11..13]) && AllDigits(s[14..16]) && AllDigits(s[17..19])) then None
    else
      var f := DateTime(ParseDigits(s[0..4]), ParseDigits(s[5..7]), ParseDigits(s[8..10]),
                        ParseDigits(s[11..13]), ParseDigits(s[14..16]), ParseDigits(s[17..19]), 0);
      if !ValidFields(f) then None
      else
        var q := (DaysBeforeYear(f.year) + DaysBeforeMonth(f.year, f.month) + f.day - 1) * 86400
                 + f.hour * 3600 + f.minute * 60 + f.second;
        assert EpochMs(f) == q * 1000;
        Some(EpochMs(f))
  }
}
