/**
 * The text `calculateNextDueDate` writes for a time value
 * (services/taskmanager/taskService.js:193) reads back, as a DATETIME,
 * as the same time to the whole second, exactly when its year has four
 * digits.
 */
module IsoTimeProps {
  import opened Base
  import opened Decimal
  import opened IsoTime

  /** A slice inside the left part of `a + b` is that slice of `a`. */
  lemma SliceLeft(a: string, b: string, i: nat, j: nat)
    requires i <= j <= |a|
    ensures (a + b)[i..j] == a[i..j]
  {
    assert forall k :: 0 <= k < j - i ==> (a + b)[i..j][k] == a[i..j][k];
  }

  /** A slice inside the right part of `a + b` is the matching slice of `b`. */
  lemma SliceRight(a: string, b: string, i: nat, j: nat)
    requires |a| <= i <= j <= |a| + |b|
    ensures (a + b)[i..j] == b[i - |a|..j - |a|]
  {
    assert forall k :: 0 <= k < j - i ==> (a + b)[i..j][k] == b[i - |a|..j - |a|][k];
  }

  /** `YYYY-MM-DD` */
  lemma DateLayout(year: string, mo: string, d: string)
    requires |year| == 4 && |mo| == 2 && |d| == 2
    ensures var date := year + "-" + mo + "-" + d;
            |date| == 10 && date[0..4] == year && date[4] == '-' && date[5..7] == mo && date[7] == '-' && date[8..10] == d
  {
    var date := year + "-" + mo + "-" + d;
    SliceLeft(year + "-" + mo, "-" + d, 0, 4);
    SliceLeft(year, "-" + mo, 0, 4);
    SliceLeft(year + "-" + mo, "-" + d, 5, 7);
    SliceRight(year + "-", mo, 5, 7);
    SliceRight(year + "-" + mo + "-", d, 8, 10);
  }

  /** `THH:MM:SS`, with `sep` for the `T` */
  lemma TimeLayout(sep: char, h: string, mi: string, se: string)
    requires |h| == 2 && |mi| == 2 && |se| == 2
    ensures var time := [sep] + h + ":" + mi + ":" + se;
            |time| == 9 && time[0] == sep && time[1..3] == h && time[3] == ':' && time[4..6] == mi &&
            time[6] == ':' && time[7..9] == se
  {
    SliceLeft([sep] + h, ":" + mi + ":" + se, 1, 3);
    SliceRight([sep], h, 1, 3);
    SliceLeft([sep] + h + ":" + mi, ":" + se, 4, 6);
    SliceRight([sep] + h + ":", mi, 4, 6);
    SliceRight([sep] + h + ":" + mi + ":", se, 7, 9);
  }

  /** Where each field sits in a stamp with a four-digit year. */
  lemma StampLayout(year: string, f: DateTime, sep: char)
    requires ValidFields(f) && |year| == 4
    ensures var s := Stamp(year, f, sep);
            |s| == 19 && s[0..4] == year && s[4] == '-' && s[5..7] == Pad2(f.month) && s[7] == '-' &&
            s[8..10] == Pad2(f.day) && s[10] == sep && s[11..13] == Pad2(f.hour) && s[13] == ':' &&
            s[14..16] == Pad2(f.minute) && s[16] == ':' && s[17..19] == Pad2(f.second)
  {
    var s := Stamp(year, f, sep);
    var mo, d, h, mi, se := Pad2(f.month), Pad2(f.day), Pad2(f.hour), Pad2(f.minute), Pad2(f.second);
    var date := year + "-" + mo + "-" + d;
    var time := [sep] + h + ":" + mi + ":" + se;
    assert s == date + time;
    DateLayout(year, mo, d);
    TimeLayout(sep, h, mi, se);
    SliceLeft(date, time, 0, 4);
    SliceLeft(date, time, 5, 7);
    SliceLeft(date, time, 8, 10);
    SliceRight(date, time, 11, 13);
    SliceRight(date, time, 14, 16);
    SliceRight(date, time, 17, 19);
  }

  /** With a four-digit year, the first 'T' of the ISO text is the date/time separator. */
  lemma StampSeparator(f: DateTime)
    requires ValidFields(f) && 0 <= f.year <= 9999
    ensures ReplaceFirst(Stamp(YearText(f.year), f, 'T'), 'T', ' ') == Stamp(YearText(f.year), f, ' ')
  {
    var year := YearText(f.year);
    var s := Stamp(year, f, 'T');
    StampLayout(year, f, 'T');
    StampLayout(year, f, ' ');
    assert forall j :: 0 <= j < 10 ==> s[j] != 'T' by {
      forall j | 0 <= j < 10
        ensures s[j] != 'T'
      {
        if j < 4 { assert s[j] == s[0..4][j]; }
        else if 5 <= j < 7 { assert s[j] == s[5..7][j - 5]; }
        else if 8 <= j { assert s[j] == s[8..10][j - 8]; }
      }
    }
    assert IndexOf(s, 'T') == 10;
    var t := Stamp(year, f, ' ');
    assert s[..10] + [' '] + s[11..] == t;
  }

  /** The text of a time value whose year has four digits is the stamp with a space. */
  lemma DueDateTextShape(t: int)
    requires -MaxTime <= t <= MaxTime && 0 <= Fields(t).year <= 9999
    ensures DueDateText(t) == Ok(Stamp(YearText(Fields(t).year), Fields(t), ' '))
  {
    var f := Fields(t);
    var stamp := Stamp(YearText(f.year), f, 'T');
    StampLayout(YearText(f.year), f, 'T');
    var iso := stamp + "." + Pad3(f.ms) + "Z";
    assert ToIsoString(t) == Ok(iso);
    assert iso[..19] == stamp;
    StampSeparator(f);
  }

  lemma ParsePad2(n: int)
    requires 0 <= n < 100
    ensures ParseDigits(Pad2(n)) == n
  {
    assert Pow10(2) == 100;
    ParsePadDigits(n, 2);
  }

  /** A stamp with a four-digit year and a space reads back as its own fields, to the second. */
  lemma ParseStamp(f: DateTime)
    requires ValidFields(f) && 0 <= f.year <= 9999
    ensures ParseDateTime(Stamp(YearText(f.year), f, ' ')) ==
            Some(EpochMs(DateTime(f.year, f.month, f.day, f.hour, f.minute, f.second, 0)))
  {
    var s := Stamp(YearText(f.year), f, ' ');
    StampLayout(YearText(f.year), f, ' ');
    assert Pow10(4) == 10000;
    ParsePadDigits(f.year, 4);
    ParsePad2(f.month);
    ParsePad2(f.day);
    ParsePad2(f.hour);
    ParsePad2(f.minute);
    ParsePad2(f.second);
  }

  /**
   * Round trip: the due-date text of a time value whose year has four
   * digits reads back as that time truncated to the whole second.
   */
  lemma DueDateTextRoundTrip(t: int)
    requires -MaxTime <= t <= MaxTime && 0 <= Fields(t).year <= 9999
    ensures DueDateText(t).Ok?
    ensures ParseDateTime(DueDateText(t).value) == Some(t - t % 1000)
  {
    var f := Fields(t);
    DueDateTextShape(t);
    ParseStamp(f);
    FieldsMillis(t);
    var g := DateTime(f.year, f.month, f.day, f.hour, f.minute, f.second, 0);
    WholeSecond(f);
    var whole := EpochMs(g);
    assert whole == t - t % 1000 by {
      assert EpochMs(f) == t && f.ms == t % 1000;
    }
    assert ParseDateTime(DueDateText(t).value) == Some(whole);
  }

  /** Dropping the milliseconds moves the time value back by exactly that many. */
  lemma WholeSecond(f: DateTime)
    requires 1 <= f.month <= 12
    ensures EpochMs(DateTime(f.year, f.month, f.day, f.hour, f.minute, f.second, 0)) == EpochMs(f) - f.ms
  {
  }

  /** A year outside 0..9999 is written with a sign, which no DATETIME reading accepts. */
  lemma DueDateTextUnreadable(t: int)
    requires -MaxTime <= t <= MaxTime && !(0 <= Fields(t).year <= 9999)
    ensures DueDateText(t).Ok?
    ensures ParseDateTime(DueDateText(t).value) == None
  {
    var f := Fields(t);
    var year := YearText(f.year);
    var stamp := Stamp(year, f, 'T');
    var iso := stamp + "." + Pad3(f.ms) + "Z";
    assert ToIsoString(t) == Ok(iso);
    var r := ReplaceFirst(iso[..19], 'T', ' ');
    assert DueDateText(t) == Ok(r);
    assert iso[0] == year[0];
    assert IndexOf(iso[..19], 'T') > 0;
    assert r[0] == iso[0];
    assert !IsDigit(r[0]);
    if |r| == 19 && r[4] == '-' && r[7] == '-' && r[10] == ' ' && r[13] == ':' && r[16] == ':' {
      assert r[0..4][0] == r[0];
      assert !AllDigits(r[0..4]);
    }
  }

  /** The due-date text reads back exactly when the year has four digits; past `MaxTime` there is no text. */
  lemma DueDateTextReadable(t: int)
    ensures DueDateText(t).Err? <==> t < -MaxTime || t > MaxTime
    ensures DueDateText(t).Ok? ==>
              (ParseDateTime(DueDateText(t).value).Some? <==> 0 <= Fields(t).year <= 9999)
  {
    if -MaxTime <= t <= MaxTime {
      if 0 <= Fields(t).year <= 9999 {
        DueDateTextRoundTrip(t);
      } else {
        DueDateTextUnreadable(t);
      }
    }
  }
}
