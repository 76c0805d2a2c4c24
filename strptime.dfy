/** The two `strptime` formats the scripts parse and the `strftime` format they write:
    `"%Y-%m-%d"` (backup file names, Drive date prefixes) and `"%Y-%m-%dT%H:%M:%S.%fZ"`
    (Drive `createdTime`). A field is accepted exactly when CPython's `_strptime` regular
    expression matches it and the resulting `datetime` is valid; None stands for ValueError. */
module Strptime {
  import opened Wrappers
  import opened Calendar
  import opened Text

  /** `%Y`: exactly four digits. */
  function YearField(t: string): (r: Option<int>)
    ensures r.Some? ==> 0 <= r.value <= 9999
  {
    if |t| == 4 && AllDigits(t) then Some(DecimalValue(t)) else None
  }

  /** `%m`, `%H`, `%M`, `%S`: one or two digits, zero-padded or not, with a value in [lo, hi]. */
  function NumberField(t: string, lo: int, hi: int): (r: Option<int>)
    ensures r.Some? ==> lo <= r.value <= hi
  {
    if 1 <= |t| <= 2 && AllDigits(t) && lo <= DecimalValue(t) <= hi then Some(DecimalValue(t)) else None
  }

  /** `%d`: as NumberField over [1, 31], or a space followed by a non-zero digit. */
  function DayField(t: string): (r: Option<int>)
    ensures r.Some? ==> 1 <= r.value <= 31
  {
    if |t| == 2 && t[0] == ' ' && '1' <= t[1] <= '9' then Some(DigitValue(t[1])) else NumberField(t, 1, 31)
  }

  /** `%f`: one to six digits, right-padded with zeros to microseconds. */
  function FractionField(t: string): (r: Option<int>)
    ensures r.Some? ==> 0 <= r.value < 1_000_000
  {
    if 1 <= |t| <= 6 && AllDigits(t) then
      FractionBound(DecimalValue(t), |t|);
      Some(DecimalValue(t) * Pow10(6 - |t|))
    else None
  }

  lemma FractionBound(v: nat, w: nat)
    requires 1 <= w <= 6 && v < Pow10(w)
    ensures v * Pow10(6 - w) < 1_000_000
  {
    assert Pow10(1) == 10 && Pow10(2) == 100 && Pow10(3) == 1000;
    assert Pow10(4) == 10000 && Pow10(5) == 100000 && Pow10(6) == 1000000;
    if w == 1 { assert Pow10(5) == 100000; }
    else if w == 2 { assert Pow10(4) == 10000; }
    else if w == 3 { assert Pow10(3) == 1000; }
    else if w == 4 { assert Pow10(2) == 100; }
    else if w == 5 { assert Pow10(1) == 10; }
    else { assert Pow10(0) == 1; }
  }

  /** `datetime.strptime(s, "%Y-%m-%d").date()`. */
  function ParseDate(s: string): (r: Option<Date>)
    ensures r.Some? ==> ValidDate(r.value)
  {
    var parts := Split(s, '-');
    if |parts| != 3 then None
    else
      match (YearField(parts[0]), NumberField(parts[1], 1, 12), DayField(parts[2]))
      case (Some(y), Some(m), Some(d)) => if ValidDate(Date(y, m, d)) then Some(Date(y, m, d)) else None
      case _ => None
  }

  /** `date.strftime("%Y-%m-%d")`, with the year zero-padded to four digits. */
  function FormatDate(d: Date): (r: string)
    requires ValidDate(d)
    ensures |r| == 10 && r[4] == '-' && r[7] == '-'
    ensures AllDigits(r[..4]) && AllDigits(r[5..7]) && AllDigits(r[8..])
  {
    Padded(d.year, 4) + "-" + Padded(d.month, 2) + "-" + Padded(d.day, 2)
  }

  /** The regular expression matches the literal `T` and `Z` of the format case-insensitively. */
  function FoldCase(s: string): string {
    seq(|s|, i requires 0 <= i < |s| => if s[i] == 't' then 'T' else if s[i] == 'z' then 'Z' else s[i])
  }

  /** A time of day as `strptime` reads it: hour, minute, second, microsecond. */
  datatype Clock = Clock(hour: int, minute: int, second: int, micro: int)

  /** The `%H:%M:%S.%f` part. A second of 60 or 61 passes the regular expression and is then
      refused by `datetime`. */
  function ParseClock(t: string): (r: Option<Clock>)
    ensures r.Some? ==> 0 <= r.value.hour < 24 && 0 <= r.value.minute < 60
                        && 0 <= r.value.second < 60 && 0 <= r.value.micro < 1_000_000
  {
    var hms := Split(t, ':');
    if |hms| != 3 then None
    else
      var sf := Split(hms[2], '.');
      if |sf| != 2 then None
      else
        match (NumberField(hms[0], 0, 23), NumberField(hms[1], 0, 59), NumberField(sf[0], 0, 61),
               FractionField(sf[1]))
        case (Some(h), Some(mi), Some(sec), Some(us)) =>
          if sec < 60 then Some(Clock(h, mi, sec, us)) else None
        case _ => None
  }

  /** `datetime.strptime(s, "%Y-%m-%dT%H:%M:%S.%fZ")`, as an Instant. */
  function ParseTimestamp(s: string): (r: Option<int>)
    ensures r.Some? ==> r.value >= 0
  {
    var u := FoldCase(s);
    if |u| == 0 || u[|u| - 1] != 'Z' then None
    else
      var halves := Split(u[..|u| - 1], 'T');
      if |halves| != 2 then None
      else
        match (ParseDate(halves[0]), ParseClock(halves[1]))
        case (Some(d), Some(c)) =>
          InstantNonNegative(d, c.hour, c.minute, c.second, c.micro);
          Some(Instant(d, c.hour, c.minute, c.second, c.micro))
        case _ => None
  }

  /** A Drive `createdTime` as the API writes it: `YYYY-MM-DDTHH:MM:SS.mmmZ`. */
  function FormatTimestamp(d: Date, hour: nat, minute: nat, second: nat, milli: nat): string
    requires ValidDate(d)
  {
    FormatDate(d) + "T" + FormatClock(hour, minute, second, milli) + "Z"
  }

  function FormatClock(hour: nat, minute: nat, second: nat, milli: nat): string {
    Padded(hour, 2) + ":" + Padded(minute, 2) + ":" + Padded(second, 2) + "." + Padded(milli, 3)
  }

  lemma DigitsHaveNoSeparator(s: string)
    requires AllDigits(s)
    ensures '-' !in s && 'T' !in s && ':' !in s && '.' !in s && '_' !in s && 't' !in s && 'z' !in s
  {
    forall c | c in s ensures IsDigit(c) {
      var i :| 0 <= i < |s| && s[i] == c;
    }
  }

  lemma FormatDateCharacters(d: Date)
    requires ValidDate(d)
    ensures '_' !in FormatDate(d) && '.' !in FormatDate(d) && 'T' !in FormatDate(d)
    ensures ':' !in FormatDate(d) && 't' !in FormatDate(d) && 'z' !in FormatDate(d)
  {
    DigitsHaveNoSeparator(Padded(d.year, 4));
    DigitsHaveNoSeparator(Padded(d.month, 2));
    DigitsHaveNoSeparator(Padded(d.day, 2));
  }

  lemma SplitFormatDate(d: Date)
    requires ValidDate(d)
    ensures Split(FormatDate(d), '-') == [Padded(d.year, 4), Padded(d.month, 2), Padded(d.day, 2)]
  {
    var y, m, dd := Padded(d.year, 4), Padded(d.month, 2), Padded(d.day, 2);
    DigitsHaveNoSeparator(y);
    DigitsHaveNoSeparator(m);
    DigitsHaveNoSeparator(dd);
    assert FormatDate(d) == y + ['-'] + m + ['-'] + dd;
    SplitThree(y, '-', m, dd);
  }

  /** Writing a valid date and reading it back gives the date. */
  lemma ParseFormatDate(d: Date)
    requires ValidDate(d)
    ensures ParseDate(FormatDate(d)) == Some(d)
    ensures '_' !in FormatDate(d) && '.' !in FormatDate(d) && 'T' !in FormatDate(d)
    ensures ':' !in FormatDate(d) && 't' !in FormatDate(d) && 'z' !in FormatDate(d)
  {
    FormatDateCharacters(d);
    SplitFormatDate(d);
    FormatDateFields(d);
  }

  /** A date written with zero-padded fields, valid or not, is read back exactly when it is a valid
      date: a month 13 or a February 30 in that shape makes `strptime` raise. */
  lemma ParsePaddedDate(year: nat, month: nat, day: nat)
    requires year < 10000 && month < 100 && day < 100
    ensures ParseDate(Padded(year, 4) + "-" + Padded(month, 2) + "-" + Padded(day, 2)) ==
              if ValidDate(Date(year, month, day)) then Some(Date(year, month, day)) else None
  {
    var y, m, d := Padded(year, 4), Padded(month, 2), Padded(day, 2);
    DigitsHaveNoSeparator(y);
    DigitsHaveNoSeparator(m);
    DigitsHaveNoSeparator(d);
    assert y + "-" + m + "-" + d == y + ['-'] + m + ['-'] + d;
    SplitThree(y, '-', m, d);
    assert Pow10(2) == 100 && Pow10(4) == 10000;
    PaddedValue(year, 4);
    PaddedValue(month, 2);
    PaddedValue(day, 2);
    assert IsDigit(d[0]);
  }

  /** Each field `strftime` writes reads back as itself. */
  lemma FormatDateFields(d: Date)
    requires ValidDate(d)
    ensures YearField(Padded(d.year, 4)) == Some(d.year)
    ensures NumberField(Padded(d.month, 2), 1, 12) == Some(d.month)
    ensures DayField(Padded(d.day, 2)) == Some(d.day)
  {
    assert Pow10(2) == 100 && Pow10(4) == 10000;
    PaddedValue(d.year, 4);
    PaddedValue(d.month, 2);
    PaddedValue(d.day, 2);
  }

  lemma FoldCaseIdentity(s: string)
    requires 't' !in s && 'z' !in s
    ensures FoldCase(s) == s
  {
    forall i | 0 <= i < |s| ensures FoldCase(s)[i] == s[i] {
      assert s[i] in s;
    }
  }

  /** The parse does not see the case of the literal `T` and `Z`. */
  lemma ParseIgnoresLiteralCase(s: string)
    ensures ParseTimestamp(FoldCase(s)) == ParseTimestamp(s)
  {
    assert FoldCase(FoldCase(s)) == FoldCase(s);
  }

  /** `%H:%M:%S.%f` written with two-digit fields and milliseconds reads back exactly when the
      time of day is valid; in particular the leap seconds 60 and 61 pass the pattern but are
      refused. */
  lemma ParseFormatClock(hour: nat, minute: nat, second: nat, milli: nat)
    requires hour < 100 && minute < 100 && second < 100 && milli < 1000
    ensures ParseClock(FormatClock(hour, minute, second, milli)) ==
              if hour < 24 && minute < 60 && second < 60
              then Some(Clock(hour, minute, second, milli * 1000)) else None
  {
    var h, m, s, f := Padded(hour, 2), Padded(minute, 2), Padded(second, 2), Padded(milli, 3);
    DigitsHaveNoSeparator(h);
    DigitsHaveNoSeparator(m);
    DigitsHaveNoSeparator(s);
    DigitsHaveNoSeparator(f);
    assert FormatClock(hour, minute, second, milli) == h + [':'] + m + [':'] + (s + ['.'] + f);
    SplitThree(h, ':', m, s + ['.'] + f);
    SplitTwo(s, '.', f);
    assert Pow10(2) == 100 && Pow10(3) == 1000;
    PaddedValue(hour, 2);
    PaddedValue(minute, 2);
    PaddedValue(second, 2);
    PaddedValue(milli, 3);
  }

  lemma FormatClockCharacters(hour: nat, minute: nat, second: nat, milli: nat)
    ensures 'T' !in FormatClock(hour, minute, second, milli)
    ensures 't' !in FormatClock(hour, minute, second, milli)
    ensures 'z' !in FormatClock(hour, minute, second, milli)
  {
    DigitsHaveNoSeparator(Padded(hour, 2));
    DigitsHaveNoSeparator(Padded(minute, 2));
    DigitsHaveNoSeparator(Padded(second, 2));
    DigitsHaveNoSeparator(Padded(milli, 3));
  }

  /** A timestamp splits at its `T` into the date and the clock, whatever the clock holds. */
  lemma ParseTimestampParts(date: string, clock: string)
    requires 'T' !in date && 't' !in date && 'z' !in date
    requires 'T' !in clock && 't' !in clock && 'z' !in clock
    ensures ParseTimestamp(date + "T" + clock + "Z") ==
              match (ParseDate(date), ParseClock(clock))
              case (Some(d), Some(c)) => Some(Instant(d, c.hour, c.minute, c.second, c.micro))
              case _ => None
  {
    var body := date + ['T'] + clock;
    assert date + "T" + clock + "Z" == body + ['Z'];
    FoldCaseIdentity(body + ['Z']);
    assert (body + ['Z'])[..|body|] == body;
    SplitTwo(date, 'T', clock);
  }

  /** Reading back a Drive timestamp gives its instant when the time of day is valid and
      ValueError otherwise. */
  lemma ParseFormatTimestamp(d: Date, hour: nat, minute: nat, second: nat, milli: nat)
    requires ValidDate(d) && hour < 100 && minute < 100 && second < 100 && milli < 1000
    ensures ParseTimestamp(FormatTimestamp(d, hour, minute, second, milli)) ==
              if hour < 24 && minute < 60 && second < 60
              then Some(Instant(d, hour, minute, second, milli * 1000)) else None
  {
    ParseFormatDate(d);
    FormatClockCharacters(hour, minute, second, milli);
    ParseTimestampParts(FormatDate(d), FormatClock(hour, minute, second, milli));
    ParseFormatClock(hour, minute, second, milli);
  }

  /** A clock without its fractional part does not match the format. */
  lemma FractionRequired(hour: nat, minute: nat, second: nat)
    ensures ParseClock(Padded(hour, 2) + ":" + Padded(minute, 2) + ":" + Padded(second, 2)) == None
  {
    var h, m, s := Padded(hour, 2), Padded(minute, 2), Padded(second, 2);
    DigitsHaveNoSeparator(h);
    DigitsHaveNoSeparator(m);
    DigitsHaveNoSeparator(s);
    assert h + ":" + m + ":" + s == h + [':'] + m + [':'] + s;
    SplitThree(h, ':', m, s);
  }
}
