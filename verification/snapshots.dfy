/**
  Snapshot bookkeeping (snapshots.hh, snapshots.cc): calendar dates and
  minute-resolution time stamps with their comparison operators, their query
  and file-name renderings, the parse of snapshot file names, and the sorted
  set of stored time stamps.

  The clock is a parameter (`now`), the directory scan is reduced to the parse
  of one file name, and the mutex is dropped: every operation is sequential.
*/
module SnapShots {
  import opened Wrappers
  import opened Decimal
  import opened Text

  datatype Date = Date(year: int, month: int, day: int)

  datatype TimeStamp = TimeStamp(date: Date, hour: int, minute: int)

  datatype SnapShotError = TooFrequentSnapShots

  // ---------------------------------------------------------------------
  // Comparison operators, as written
  // ---------------------------------------------------------------------

  function DateEq(a: Date, b: Date): bool
  {
    (a.year == b.year) && (a.month == b.month) && (a.day == b.day)
  }

  function DateNe(a: Date, b: Date): bool { !DateEq(a, b) }

  function DateLess(a: Date, b: Date): bool
  {
    if a.year != b.year then a.year < b.year
    else if a.month != b.month then a.month < b.month
    else a.day < b.day
  }

  function DateLessEq(a: Date, b: Date): bool
  {
    if a.year != b.year then a.year < b.year
    else if a.month != b.month then a.month < b.month
    else a.day <= b.day
  }

  function DateGreaterEq(a: Date, b: Date): bool { !DateLess(a, b) }

  function DateGreater(a: Date, b: Date): bool { !DateLessEq(a, b) }

  function TsEq(a: TimeStamp, b: TimeStamp): bool
  {
    DateEq(a.date, b.date) && (a.hour == b.hour) && (a.minute == b.minute)
  }

  function TsNe(a: TimeStamp, b: TimeStamp): bool { !TsEq(a, b) }

  function TsLess(a: TimeStamp, b: TimeStamp): bool
  {
    if DateNe(a.date, b.date) then DateLess(a.date, b.date)
    else if a.hour != b.hour then a.hour < b.hour
    else a.minute < b.minute
  }

  function TsLessEq(a: TimeStamp, b: TimeStamp): bool
  {
    if DateNe(a.date, b.date) then DateLess(a.date, b.date)
    else if a.hour != b.hour then a.hour < b.hour
    else a.minute <= b.minute
  }

  function TsGreaterEq(a: TimeStamp, b: TimeStamp): bool { !TsLess(a, b) }

  function TsGreater(a: TimeStamp, b: TimeStamp): bool { !TsLessEq(a, b) }

  /** Lexicographic order on triples: the reference the operators are checked against. */
  predicate LexLess(a: (int, int, int), b: (int, int, int))
  {
    a.0 < b.0 || (a.0 == b.0 && (a.1 < b.1 || (a.1 == b.1 && a.2 < b.2)))
  }

  function DateKey(d: Date): (int, int, int) { (d.year, d.month, d.day) }

  /** The Date operators: equality is field-wise, `<` is lexicographic, the rest derive from them. */
  lemma DateOperators(a: Date, b: Date)
    ensures DateEq(a, b) <==> a == b
    ensures DateNe(a, b) <==> a != b
    ensures DateLess(a, b) <==> LexLess(DateKey(a), DateKey(b))
    ensures DateLessEq(a, b) <==> DateLess(a, b) || DateEq(a, b)
    ensures DateGreater(a, b) <==> DateLess(b, a)
    ensures DateGreaterEq(a, b) <==> DateLessEq(b, a)
    ensures (if DateLess(a, b) then 1 else 0) + (if DateEq(a, b) then 1 else 0) + (if DateGreater(a, b) then 1 else 0) == 1
  {
  }

  /** The TimeStamp operators are lexicographic on (date, hour, minute). */
  lemma TimeStampOperators(a: TimeStamp, b: TimeStamp)
    ensures TsEq(a, b) <==> a == b
    ensures TsNe(a, b) <==> a != b
    ensures TsLess(a, b) <==> DateLess(a.date, b.date) || (a.date == b.date && LexLess((a.hour, a.minute, 0), (b.hour, b.minute, 0)))
    ensures TsLessEq(a, b) <==> TsLess(a, b) || TsEq(a, b)
    ensures TsGreater(a, b) <==> TsLess(b, a)
    ensures TsGreaterEq(a, b) <==> TsLessEq(b, a)
    ensures (if TsLess(a, b) then 1 else 0) + (if TsEq(a, b) then 1 else 0) + (if TsGreater(a, b) then 1 else 0) == 1
  {
  }

  /** `<` on time stamps is a strict total order, as `std::set` requires. */
  lemma TsLessStrictTotal(a: TimeStamp, b: TimeStamp, c: TimeStamp)
    ensures !TsLess(a, a)
    ensures TsLess(a, b) && TsLess(b, c) ==> TsLess(a, c)
    ensures a != b ==> TsLess(a, b) || TsLess(b, a)
  {
  }

  // ---------------------------------------------------------------------
  // Constructors from strings
  // ---------------------------------------------------------------------

  /** `Date(const string &, const string &, const string &)`: each field through atoi. */
  function DateOfStrings(year: string, month: string, day: string): Date
  {
    Date(Atoi(year), Atoi(month), Atoi(day))
  }

  function TimeStampOfStrings(year: string, month: string, day: string, hour: string, minute: string): TimeStamp
  {
    TimeStamp(DateOfStrings(year, month, day), Atoi(hour), Atoi(minute))
  }

  /** The string constructors invert `std::to_string` field by field. */
  lemma OfStringsRoundTrip(t: TimeStamp)
    ensures TimeStampOfStrings(ToString(t.date.year), ToString(t.date.month), ToString(t.date.day),
                               ToString(t.hour), ToString(t.minute)) == t
  {
    ToStringRoundTrip(t.date.year);
    ToStringRoundTrip(t.date.month);
    ToStringRoundTrip(t.date.day);
    ToStringRoundTrip(t.hour);
    ToStringRoundTrip(t.minute);
  }

  // ---------------------------------------------------------------------
  // Query strings
  // ---------------------------------------------------------------------

  function DateToQuery(d: Date): string
  {
    "year=" + ToString(d.year) + "&month=" + ToString(d.month) + "&day=" + ToString(d.day)
  }

  function TimeStampToQuery(t: TimeStamp): string
  {
    DateToQuery(t.date) + "&hour=" + ToString(t.hour) + "&minute=" + ToString(t.minute)
  }

  /** The value of field `key` if the query part is exactly "key=value". */
  function FieldValue(part: string, key: string): Option<string>
  {
    var kv := Split(part, '=');
    if |kv| == 2 && kv[0] == key then Some(kv[1]) else None
  }

  /** Reads a query of the form `DateToQuery` produces. */
  function DateFromQuery(q: string): Option<Date>
  {
    var parts := Split(q, '&');
    if |parts| != 3 then None
    else match (FieldValue(parts[0], "year"), FieldValue(parts[1], "month"), FieldValue(parts[2], "day"))
      case (Some(y), Some(m), Some(d)) => Some(Date(Atoi(y), Atoi(m), Atoi(d)))
      case _ => None
  }

  /** Reads a query of the form `TimeStampToQuery` produces. */
  function TimeStampFromQuery(q: string): Option<TimeStamp>
  {
    var parts := Split(q, '&');
    if |parts| != 5 then None
    else match (FieldValue(parts[0], "year"), FieldValue(parts[1], "month"), FieldValue(parts[2], "day"),
                FieldValue(parts[3], "hour"), FieldValue(parts[4], "minute"))
      case (Some(y), Some(mo), Some(d), Some(h), Some(mi)) =>
        Some(TimeStamp(Date(Atoi(y), Atoi(mo), Atoi(d)), Atoi(h), Atoi(mi)))
      case _ => None
  }

  lemma NoSeparatorsInNumber(n: int)
    ensures '&' !in ToString(n) && '=' !in ToString(n)
  {
    ToStringAlphabet(n);
  }

  /** A query part "key=v" with no separator in v holds no '&' and yields v under its key. */
  lemma FieldRoundTrip(key: string, prefix: string, v: string)
    requires '=' !in key && '&' !in key && prefix == key + "="
    requires '=' !in v && '&' !in v
    ensures '&' !in prefix + v
    ensures FieldValue(prefix + v, key) == Some(v)
  {
    assert prefix + v == key + ['='] + v;
    SplitConcat(key, '=', v);
    SplitNoSeparator(v, '=');
  }

  lemma DateQueryFields(v1: string, v2: string, v3: string)
    requires forall v | v in [v1, v2, v3] :: '=' !in v && '&' !in v
    ensures DateFromQuery("year=" + v1 + "&month=" + v2 + "&day=" + v3) == Some(Date(Atoi(v1), Atoi(v2), Atoi(v3)))
  {
    FieldRoundTrip("year", "year=", v1);
    FieldRoundTrip("month", "month=", v2);
    FieldRoundTrip("day", "day=", v3);
    DateQueryLayout(v1, v2, v3);
    SplitThree("year=" + v1, "month=" + v2, "day=" + v3, '&');
    DateFromParts("year=" + v1 + "&month=" + v2 + "&day=" + v3, "year=" + v1, "month=" + v2, "day=" + v3, v1, v2, v3);
  }

  lemma DateQueryLayout(v1: string, v2: string, v3: string)
    ensures "year=" + v1 + "&month=" + v2 + "&day=" + v3 == ("year=" + v1) + ['&'] + ("month=" + v2) + ['&'] + ("day=" + v3)
  {
  }

  lemma DateFromParts(q: string, p1: string, p2: string, p3: string, v1: string, v2: string, v3: string)
    requires Split(q, '&') == [p1, p2, p3]
    requires FieldValue(p1, "year") == Some(v1) && FieldValue(p2, "month") == Some(v2) && FieldValue(p3, "day") == Some(v3)
    ensures DateFromQuery(q) == Some(Date(Atoi(v1), Atoi(v2), Atoi(v3)))
  {
  }

  /** The query lists year, month and day in order, each readable back with atoi. */
  lemma DateQueryRoundTrip(d: Date)
    ensures DateFromQuery(DateToQuery(d)) == Some(d)
  {
    NoSeparatorsInNumber(d.year);
    NoSeparatorsInNumber(d.month);
    NoSeparatorsInNumber(d.day);
    DateQueryFields(ToString(d.year), ToString(d.month), ToString(d.day));
    ToStringRoundTrip(d.year);
    ToStringRoundTrip(d.month);
    ToStringRoundTrip(d.day);
  }

  lemma NoAmpersand(prefix: string, v: string)
    requires '&' !in prefix && '&' !in v
    ensures '&' !in prefix + v
  {
  }

  lemma TimeStampQueryLayout(v1: string, v2: string, v3: string, v4: string, v5: string)
    ensures "year=" + v1 + "&month=" + v2 + "&day=" + v3 + "&hour=" + v4 + "&minute=" + v5 ==
            ("year=" + v1) + ['&'] + ("month=" + v2) + ['&'] + ("day=" + v3) + ['&'] + ("hour=" + v4) + ['&'] + ("minute=" + v5)
  {
  }

  lemma TimeStampQueryParts(v1: string, v2: string, v3: string, v4: string, v5: string)
    requires '&' !in v1 && '&' !in v2 && '&' !in v3 && '&' !in v4 && '&' !in v5
    ensures Split("year=" + v1 + "&month=" + v2 + "&day=" + v3 + "&hour=" + v4 + "&minute=" + v5, '&') ==
      ["year=" + v1, "month=" + v2, "day=" + v3, "hour=" + v4, "minute=" + v5]
  {
    NoAmpersand("year=", v1);
    NoAmpersand("month=", v2);
    NoAmpersand("day=", v3);
    NoAmpersand("hour=", v4);
    NoAmpersand("minute=", v5);
    TimeStampQueryLayout(v1, v2, v3, v4, v5);
    SplitFive("year=" + v1, "month=" + v2, "day=" + v3, "hour=" + v4, "minute=" + v5, '&');
  }

  /** A value fit to stand in a query: it holds neither separator. */
  predicate Plain(v: string)
  {
    '=' !in v && '&' !in v
  }

  lemma TimeStampQueryFields(v1: string, v2: string, v3: string, v4: string, v5: string)
    requires Plain(v1) && Plain(v2) && Plain(v3) && Plain(v4) && Plain(v5)
    ensures TimeStampFromQuery("year=" + v1 + "&month=" + v2 + "&day=" + v3 + "&hour=" + v4 + "&minute=" + v5) ==
      Some(TimeStampOfStrings(v1, v2, v3, v4, v5))
  {
    var q := "year=" + v1 + "&month=" + v2 + "&day=" + v3 + "&hour=" + v4 + "&minute=" + v5;
    TimeStampQueryParts(v1, v2, v3, v4, v5);
    TimeStampFieldValues(v1, v2, v3, v4, v5);
    TimeStampFromParts(q, "year=" + v1, "month=" + v2, "day=" + v3, "hour=" + v4, "minute=" + v5,
                       v1, v2, v3, v4, v5);
  }

  lemma TimeStampFieldValues(v1: string, v2: string, v3: string, v4: string, v5: string)
    requires Plain(v1) && Plain(v2) && Plain(v3) && Plain(v4) && Plain(v5)
    ensures FieldValue("year=" + v1, "year") == Some(v1) && FieldValue("month=" + v2, "month") == Some(v2)
    ensures FieldValue("day=" + v3, "day") == Some(v3) && FieldValue("hour=" + v4, "hour") == Some(v4)
    ensures FieldValue("minute=" + v5, "minute") == Some(v5)
  {
    FieldRoundTrip("year", "year=", v1);
    FieldRoundTrip("month", "month=", v2);
    FieldRoundTrip("day", "day=", v3);
    FieldRoundTrip("hour", "hour=", v4);
    FieldRoundTrip("minute", "minute=", v5);
  }

  lemma TimeStampFromParts(q: string, p1: string, p2: string, p3: string, p4: string, p5: string,
                           v1: string, v2: string, v3: string, v4: string, v5: string)
    requires Split(q, '&') == [p1, p2, p3, p4, p5]
    requires FieldValue(p1, "year") == Some(v1) && FieldValue(p2, "month") == Some(v2) && FieldValue(p3, "day") == Some(v3)
    requires FieldValue(p4, "hour") == Some(v4) && FieldValue(p5, "minute") == Some(v5)
    ensures TimeStampFromQuery(q) == Some(TimeStampOfStrings(v1, v2, v3, v4, v5))
  {
  }

  /** The time-stamp query extends the date query with hour and minute, all readable back. */
  lemma TimeStampQueryRoundTrip(t: TimeStamp)
    ensures DateToQuery(t.date) <= TimeStampToQuery(t)
    ensures TimeStampFromQuery(TimeStampToQuery(t)) == Some(t)
  {
    var d := t.date;
    var v1, v2, v3, v4, v5 := ToString(d.year), ToString(d.month), ToString(d.day), ToString(t.hour), ToString(t.minute);
    assert DateToQuery(d) <= TimeStampToQuery(t) by {
      PrefixOfConcat(DateToQuery(d), "&hour=" + v4 + "&minute=" + v5);
      assert TimeStampToQuery(t) == DateToQuery(d) + ("&hour=" + v4 + "&minute=" + v5);
    }
    NoSeparatorsInNumber(d.year);
    NoSeparatorsInNumber(d.month);
    NoSeparatorsInNumber(d.day);
    NoSeparatorsInNumber(t.hour);
    NoSeparatorsInNumber(t.minute);
    assert TimeStampToQuery(t) == "year=" + v1 + "&month=" + v2 + "&day=" + v3 + "&hour=" + v4 + "&minute=" + v5;
    TimeStampQueryFields(v1, v2, v3, v4, v5);
    OfStringsRoundTrip(t);
  }

  lemma PrefixOfConcat(a: string, b: string)
    ensures a <= a + b
  {
  }

  // ---------------------------------------------------------------------
  // File names
  // ---------------------------------------------------------------------

  /** `to_string(Date)`: "YYYY-MM-DD", each field zero-filled to its width. */
  function DateToString(d: Date): string
  {
    PadZero(ToString(d.year), 4) + "-" + PadZero(ToString(d.month), 2) + "-" + PadZero(ToString(d.day), 2)
  }

  /** `to_string(TimeStamp)`: "YYYY-MM-DD-at-HH-MM". */
  function TimeStampToString(t: TimeStamp): string
  {
    DateToString(t.date) + "-at-" + PadZero(ToString(t.hour), 2) + "-" + PadZero(ToString(t.minute), 2)
  }

  /** `SnapShots::toFileName`. */
  function FileName(t: TimeStamp): string
  {
    "snapshot-" + TimeStampToString(t) + ".png"
  }

  predicate DigitsAt(s: string, from: nat, to: nat)
    requires from <= to <= |s|
  {
    forall k :: from <= k < to ==> IsDigit(s[k])
  }

  /**
    A full match of `snapshot-([0-9]{4})-([0-9]{2})-([0-9]{2})-at-([0-9]{2})-([0-9]{2})[.]png`,
    the five groups read with atoi; `None` when the name does not match.
  */
  function ParseFileName(s: string): Option<TimeStamp>
  {
    if |s| == 32 && s[..9] == "snapshot-" && DigitsAt(s, 9, 13) && s[13] == '-' && DigitsAt(s, 14, 16)
       && s[16] == '-' && DigitsAt(s, 17, 19) && s[19..23] == "-at-" && DigitsAt(s, 23, 25) && s[25] == '-'
       && DigitsAt(s, 26, 28) && s[28..] == ".png"
    then Some(TimeStampOfStrings(s[9..13], s[14..16], s[17..19], s[23..25], s[26..28]))
    else None
  }

  function Pow10(w: nat): nat { if w == 0 then 1 else 10 * Pow10(w - 1) }

  lemma {:induction false} DigitsWidth(n: nat, w: nat)
    requires 0 < w && n < Pow10(w)
    ensures |Digits(n)| <= w
  {
    if n >= 10 {
      assert w > 1;
      DigitsWidth(n / 10, w - 1);
    }
  }

  /** A field in [0, 10^w) renders as exactly w digits that read back as the field. */
  lemma FieldRendering(n: int, w: nat)
    requires 0 < w && 0 <= n < Pow10(w)
    ensures |PadZero(ToString(n), w)| == w && AllDigits(PadZero(ToString(n), w))
    ensures Atoi(PadZero(ToString(n), w)) == n
  {
    DigitsWidth(n, w);
    PaddedRoundTrip(n, w);
  }

  /** A time stamp whose fields fit their widths. */
  predicate FitsFileName(t: TimeStamp)
  {
    0 <= t.date.year <= 9999 && 0 <= t.date.month <= 99 && 0 <= t.date.day <= 99 &&
    0 <= t.hour <= 99 && 0 <= t.minute <= 99
  }

  /** The name laid out from its five fields. */
  function Compose(y: string, mo: string, d: string, h: string, mi: string): string
  {
    "snapshot-" + y + "-" + mo + "-" + d + "-at-" + h + "-" + mi + ".png"
  }

  lemma ComposeLayout(y: string, mo: string, d: string, h: string, mi: string)
    requires |y| == 4 && |mo| == 2 && |d| == 2 && |h| == 2 && |mi| == 2
    ensures var c := Compose(y, mo, d, h, mi);
      |c| == 32 && c[..9] == "snapshot-" && c[9..13] == y && c[13] == '-' && c[14..16] == mo &&
      c[16] == '-' && c[17..19] == d && c[19..23] == "-at-" && c[23..25] == h && c[25] == '-' &&
      c[26..28] == mi && c[28..] == ".png"
  {
    var p := "snapshot-" + y + "-" + mo + "-" + d;
    var q := "-at-" + h + "-" + mi + ".png";
    assert Compose(y, mo, d, h, mi) == p + q;
    ComposeFront(y, mo, d);
    ComposeBack(h, mi);
    SplitHalves(p, q);
  }

  lemma ComposeFront(y: string, mo: string, d: string)
    requires |y| == 4 && |mo| == 2 && |d| == 2
    ensures var p := "snapshot-" + y + "-" + mo + "-" + d;
      |p| == 19 && p[..9] == "snapshot-" && p[9..13] == y && p[13] == '-' && p[14..16] == mo &&
      p[16] == '-' && p[17..] == d
  {
  }

  lemma ComposeBack(h: string, mi: string)
    requires |h| == 2 && |mi| == 2
    ensures var q := "-at-" + h + "-" + mi + ".png";
      |q| == 13 && q[..4] == "-at-" && q[4..6] == h && q[6] == '-' && q[7..9] == mi && q[9..] == ".png"
  {
  }

  /** Slices of a 19-character front joined to a 13-character back. */
  lemma SplitHalves(p: string, q: string)
    requires |p| == 19 && |q| == 13
    ensures (p + q)[..9] == p[..9] && (p + q)[9..13] == p[9..13] && (p + q)[14..16] == p[14..16]
    ensures (p + q)[17..19] == p[17..] && (p + q)[19..23] == q[..4] && (p + q)[23..25] == q[4..6]
    ensures (p + q)[26..28] == q[7..9] && (p + q)[28..] == q[9..]
  {
  }

  lemma ComposeOfLayout(s: string)
    requires |s| == 32 && s[..9] == "snapshot-" && s[13] == '-' && s[16] == '-' && s[19..23] == "-at-"
    requires s[25] == '-' && s[28..] == ".png"
    ensures s == Compose(s[9..13], s[14..16], s[17..19], s[23..25], s[26..28])
  {
    var c := Compose(s[9..13], s[14..16], s[17..19], s[23..25], s[26..28]);
    ComposeLayout(s[9..13], s[14..16], s[17..19], s[23..25], s[26..28]);
    assert forall k | 0 <= k < 32 :: c[k] == s[k] by {
      forall k | 0 <= k < 32 ensures c[k] == s[k] {
        if k < 9 { assert c[k] == c[..9][k] && s[k] == s[..9][k]; }
        else if k < 13 { assert c[k] == c[9..13][k - 9]; }
        else if k == 13 || k == 16 || k == 25 { }
        else if k < 16 { assert c[k] == c[14..16][k - 14]; }
        else if k < 19 { assert c[k] == c[17..19][k - 17]; }
        else if k < 23 { assert c[k] == c[19..23][k - 19] && s[k] == s[19..23][k - 19]; }
        else if k < 25 { assert c[k] == c[23..25][k - 23]; }
        else if k < 28 { assert c[k] == c[26..28][k - 26]; }
        else { assert c[k] == c[28..][k - 28] && s[k] == s[28..][k - 28]; }
      }
    }
  }

  lemma FileNameIsCompose(t: TimeStamp)
    ensures FileName(t) == Compose(PadZero(ToString(t.date.year), 4), PadZero(ToString(t.date.month), 2),
                                   PadZero(ToString(t.date.day), 2), PadZero(ToString(t.hour), 2),
                                   PadZero(ToString(t.minute), 2))
  {
    var y, mo, d := PadZero(ToString(t.date.year), 4), PadZero(ToString(t.date.month), 2), PadZero(ToString(t.date.day), 2);
    var h, mi := PadZero(ToString(t.hour), 2), PadZero(ToString(t.minute), 2);
    assert DateToString(t.date) == y + "-" + mo + "-" + d;
    assert TimeStampToString(t) == (y + "-" + mo + "-" + d) + "-at-" + h + "-" + mi;
    ComposeAssociates(y, mo, d, h, mi);
  }

  lemma ComposeAssociates(y: string, mo: string, d: string, h: string, mi: string)
    ensures "snapshot-" + ((y + "-" + mo + "-" + d) + "-at-" + h + "-" + mi) + ".png" == Compose(y, mo, d, h, mi)
  {
  }

  lemma ParseCompose(y: string, mo: string, d: string, h: string, mi: string)
    requires |y| == 4 && |mo| == 2 && |d| == 2 && |h| == 2 && |mi| == 2
    requires AllDigits(y) && AllDigits(mo) && AllDigits(d) && AllDigits(h) && AllDigits(mi)
    ensures ParseFileName(Compose(y, mo, d, h, mi)) == Some(TimeStampOfStrings(y, mo, d, h, mi))
  {
    var s := Compose(y, mo, d, h, mi);
    ComposeLayout(y, mo, d, h, mi);
    assert DigitsAt(s, 9, 13) by {
      forall k | 9 <= k < 13 ensures IsDigit(s[k]) { assert s[k] == s[9..13][k - 9]; }
    }
    assert DigitsAt(s, 14, 16) by {
      forall k | 14 <= k < 16 ensures IsDigit(s[k]) { assert s[k] == s[14..16][k - 14]; }
    }
    assert DigitsAt(s, 17, 19) by {
      forall k | 17 <= k < 19 ensures IsDigit(s[k]) { assert s[k] == s[17..19][k - 17]; }
    }
    assert DigitsAt(s, 23, 25) by {
      forall k | 23 <= k < 25 ensures IsDigit(s[k]) { assert s[k] == s[23..25][k - 23]; }
    }
    assert DigitsAt(s, 26, 28) by {
      forall k | 26 <= k < 28 ensures IsDigit(s[k]) { assert s[k] == s[26..28][k - 26]; }
    }
  }

  /** The file name of a time stamp that fits matches the pattern and parses back to it. */
  lemma FileNameRoundTrip(t: TimeStamp)
    requires FitsFileName(t)
    ensures ParseFileName(FileName(t)) == Some(t)
  {
    assert Pow10(2) == 100 && Pow10(4) == 10000;
    var y, mo, d := PadZero(ToString(t.date.year), 4), PadZero(ToString(t.date.month), 2), PadZero(ToString(t.date.day), 2);
    var h, mi := PadZero(ToString(t.hour), 2), PadZero(ToString(t.minute), 2);
    FieldRendering(t.date.year, 4);
    FieldRendering(t.date.month, 2);
    FieldRendering(t.date.day, 2);
    FieldRendering(t.hour, 2);
    FieldRendering(t.minute, 2);
    FileNameIsCompose(t);
    ParseCompose(y, mo, d, h, mi);
  }

  /** Conversely, a name that matches is exactly the file name of the time stamp it parses to. */
  lemma ParsedFileNameRendersBack(s: string)
    requires ParseFileName(s).Some?
    ensures FitsFileName(ParseFileName(s).value)
    ensures FileName(ParseFileName(s).value) == s
  {
    var g1, g2, g3, g4, g5 := s[9..13], s[14..16], s[17..19], s[23..25], s[26..28];
    GroupDigits(s, 9, 13);
    GroupDigits(s, 14, 16);
    GroupDigits(s, 17, 19);
    GroupDigits(s, 23, 25);
    GroupDigits(s, 26, 28);
    assert ParseFileName(s).value == TimeStampOfStrings(g1, g2, g3, g4, g5);
    RenderGroups(g1, g2, g3, g4, g5);
    ComposeOfLayout(s);
  }

  lemma GroupDigits(s: string, from: nat, to: nat)
    requires from <= to <= |s| && DigitsAt(s, from, to)
    ensures AllDigits(s[from..to])
  {
    assert forall k | 0 <= k < to - from :: s[from..to][k] == s[from + k];
  }

  /** Five digit groups of the pattern's widths render back as themselves. */
  lemma RenderGroups(g1: string, g2: string, g3: string, g4: string, g5: string)
    requires |g1| == 4 && |g2| == 2 && |g3| == 2 && |g4| == 2 && |g5| == 2
    requires AllDigits(g1) && AllDigits(g2) && AllDigits(g3) && AllDigits(g4) && AllDigits(g5)
    ensures FitsFileName(TimeStampOfStrings(g1, g2, g3, g4, g5))
    ensures FileName(TimeStampOfStrings(g1, g2, g3, g4, g5)) == Compose(g1, g2, g3, g4, g5)
  {
    var t := TimeStampOfStrings(g1, g2, g3, g4, g5);
    GroupRendersBack(g1);
    GroupRendersBack(g2);
    GroupRendersBack(g3);
    GroupRendersBack(g4);
    GroupRendersBack(g5);
    assert Pow10(2) == 100 && Pow10(4) == 10000;
    FileNameIsCompose(t);
  }

  /** A group of w digits reads as a value below 10^w that re-renders as the group. */
  lemma GroupRendersBack(g: string)
    requires AllDigits(g) && |g| > 0
    ensures 0 <= Atoi(g) < Pow10(|g|)
    ensures PadZero(ToString(Atoi(g)), |g|) == g
  {
    AtoiOfDigits(g);
    DigitsOfValue(g);
    ValueBound(g);
  }

  lemma {:induction false} ValueBound(s: string)
    requires AllDigits(s)
    ensures Value(s) < Pow10(|s|)
  {
    if |s| > 0 {
      ValueBound(s[..|s| - 1]);
    }
  }

  // ---------------------------------------------------------------------
  // The stored set
  // ---------------------------------------------------------------------

  /** The time stamps of the snapshots on disk; a `std::set` kept in ascending order. */
  datatype SnapShots = SnapShots(stamps: seq<TimeStamp>)

  ghost predicate Ascending(s: seq<TimeStamp>)
  {
    forall i, j :: 0 <= i < j < |s| ==> TsLess(s[i], s[j])
  }

  ghost predicate Valid(ss: SnapShots) { Ascending(ss.stamps) }

  lemma AscendingUnique(s: seq<TimeStamp>, k: int, k': int)
    requires Ascending(s) && 0 <= k < |s| && 0 <= k' < |s| && s[k] == s[k']
    ensures k == k'
  {
    TsLessStrictTotal(s[k], s[k], s[k]);
  }

  /** `std::set::find` over the ascending sequence: stops at the first element not below t. */
  function Find(s: seq<TimeStamp>, t: TimeStamp): (r: bool)
    requires Ascending(s)
    ensures r <==> t in s
  {
    if |s| == 0 then false
    else if TsEq(s[0], t) then true
    else if TsLess(t, s[0]) then
      assert forall k :: 0 < k < |s| ==> TsLess(s[0], s[k]);
      assert forall k :: 0 <= k < |s| ==> s[k] != t by {
        forall k | 0 <= k < |s| ensures s[k] != t {
          if k > 0 {
            TsLessStrictTotal(t, s[0], s[k]);
          }
        }
      }
      false
    else
      assert s == [s[0]] + s[1..];
      Find(s[1..], t)
  }

  /** `SnapShots::exists`. */
  function Exists(ss: SnapShots, t: TimeStamp): (r: bool)
    requires Valid(ss)
    ensures r <==> t in ss.stamps
  {
    Find(ss.stamps, t)
  }

  /** Insertion at the place that keeps the sequence ascending. */
  function Insert(s: seq<TimeStamp>, t: TimeStamp): (r: seq<TimeStamp>)
    requires Ascending(s) && t !in s
    ensures Ascending(r)
    ensures forall x :: x in r <==> x in s || x == t
    ensures |r| == |s| + 1
  {
    if |s| == 0 then [t]
    else if TsLess(t, s[0]) then
      assert forall k :: 0 <= k < |s| ==> TsLess(t, s[k]) by {
        forall k | 0 <= k < |s| ensures TsLess(t, s[k]) {
          if k > 0 {
            TsLessStrictTotal(t, s[0], s[k]);
          }
        }
      }
      [t] + s
    else
      TsLessStrictTotal(s[0], t, t);
      assert TsLess(s[0], t);
      var rest := Insert(s[1..], t);
      assert forall k :: 0 <= k < |rest| ==> TsLess(s[0], rest[k]) by {
        forall k | 0 <= k < |rest| ensures TsLess(s[0], rest[k]) {
          assert rest[k] in s[1..] || rest[k] == t;
        }
      }
      [s[0]] + rest
  }

  /** A snapshot file among `names` parses to t. */
  ghost predicate Listed(names: seq<string>, t: TimeStamp)
  {
    exists k :: 0 <= k < |names| && ParseFileName(names[k]) == Some(t)
  }

  /** The set built from the parse results of a directory listing, in order. */
  function Collect(found: seq<Option<TimeStamp>>): (ss: SnapShots)
    ensures Valid(ss)
    ensures forall t :: t in ss.stamps <==> Some(t) in found
  {
    if |found| == 0 then SnapShots([])
    else
      var init := found[..|found| - 1];
      var prev := Collect(init);
      assert found == init + [found[|found| - 1]];
      match found[|found| - 1]
      case None => prev
      case Some(t) => if Exists(prev, t) then prev else SnapShots(Insert(prev.stamps, t))
  }

  /** The parse result of each name, in order. */
  function Parsed(names: seq<string>): (found: seq<Option<TimeStamp>>)
    ensures |found| == |names|
    ensures forall k :: 0 <= k < |names| ==> found[k] == ParseFileName(names[k])
  {
    if |names| == 0 then [] else Parsed(names[..|names| - 1]) + [ParseFileName(names[|names| - 1])]
  }

  lemma ParsedListed(names: seq<string>, t: TimeStamp)
    ensures Some(t) in Parsed(names) <==> Listed(names, t)
  {
    Preimage(names, Parsed(names), ParseFileName, Some(t));
  }

  /** A value occurs in a mapped sequence iff some element maps to it. */
  lemma Preimage<A, B>(xs: seq<A>, ys: seq<B>, f: A -> B, y: B)
    requires |ys| == |xs| && forall k :: 0 <= k < |xs| ==> ys[k] == f(xs[k])
    ensures y in ys <==> exists k :: 0 <= k < |xs| && f(xs[k]) == y
  {
    if y in ys {
      var k :| 0 <= k < |ys| && ys[k] == y;
      assert f(xs[k]) == y;
    }
  }

  /**
    The `SnapShots` constructor over the file names of the working directory,
    in directory order: every name matching the pattern adds its time stamp.
  */
  function Scan(names: seq<string>): (ss: SnapShots)
    ensures Valid(ss)
    ensures forall t :: t in ss.stamps <==> Listed(names, t)
  {
    var found := Parsed(names);
    forall t ensures Some(t) in found <==> Listed(names, t) {
      ParsedListed(names, t);
    }
    Collect(found)
  }

  /**
    `SnapShots::newSnapShot` at clock value `now`: fails with the set unchanged
    if `now` is stored already, otherwise stores it and names its file.
  */
  function NewSnapShot(ss: SnapShots, now: TimeStamp): (r: Result<(SnapShots, string), SnapShotError>)
    requires Valid(ss)
    ensures r.Err? <==> now in ss.stamps
    ensures r.Ok? ==> Valid(r.value.0) && r.value.1 == FileName(now)
    ensures r.Ok? ==> forall x :: x in r.value.0.stamps <==> x in ss.stamps || x == now
  {
    if Exists(ss, now) then Err(TooFrequentSnapShots)
    else Ok((SnapShots(Insert(ss.stamps, now)), FileName(now)))
  }

  /** `SnapShots::timeStamps()`: every stored time stamp once, ascending. */
  function TimeStamps(ss: SnapShots): (r: seq<TimeStamp>)
    requires Valid(ss)
    ensures forall i, j :: 0 <= i < j < |r| ==> TsLess(r[i], r[j])
    ensures forall x :: x in r <==> x in ss.stamps
    ensures |r| == |ss.stamps|
  {
    ss.stamps
  }

  /** Index of the first element not below `key` (`lower_bound`). */
  function LowerBound(s: seq<TimeStamp>, key: TimeStamp): (i: nat)
    requires Ascending(s)
    ensures i <= |s|
    ensures forall k :: 0 <= k < i ==> TsLess(s[k], key)
    ensures forall k :: i <= k < |s| ==> !TsLess(s[k], key)
  {
    if |s| == 0 then 0
    else if !TsLess(s[0], key) then
      assert forall k :: 0 < k < |s| ==> !TsLess(s[k], key) by {
        forall k | 0 < k < |s| ensures !TsLess(s[k], key) {
          TsLessStrictTotal(s[0], s[k], key);
          TsLessStrictTotal(key, s[0], s[k]);
        }
      }
      0
    else 1 + LowerBound(s[1..], key)
  }

  /** Index of the first element above `key` (`upper_bound`). */
  function UpperBound(s: seq<TimeStamp>, key: TimeStamp): (i: nat)
    requires Ascending(s)
    ensures i <= |s|
    ensures forall k :: 0 <= k < i ==> !TsLess(key, s[k])
    ensures forall k :: i <= k < |s| ==> TsLess(key, s[k])
  {
    if |s| == 0 then 0
    else if TsLess(key, s[0]) then
      assert forall k :: 0 < k < |s| ==> TsLess(key, s[k]) by {
        forall k | 0 < k < |s| ensures TsLess(key, s[k]) {
          TsLessStrictTotal(key, s[0], s[k]);
        }
      }
      0
    else 1 + UpperBound(s[1..], key)
  }

  /**
    `SnapShots::timeStamps(date)`: the stored time stamps t with
    (date, 0, 0) <= t <= (date, 23, 59), ascending.
  */
  function TimeStampsOn(ss: SnapShots, d: Date): (r: seq<TimeStamp>)
    requires Valid(ss)
    ensures forall i, j :: 0 <= i < j < |r| ==> TsLess(r[i], r[j])
    ensures forall x :: x in r <==>
              x in ss.stamps && TsLessEq(TimeStamp(d, 0, 0), x) && TsLessEq(x, TimeStamp(d, 23, 59))
  {
    var s := ss.stamps;
    var lo, hi := TimeStamp(d, 0, 0), TimeStamp(d, 23, 59);
    var i := LowerBound(s, lo);
    var j := UpperBound(s, hi);
    if j < i then
      assert TsLess(s[j], lo) && TsLess(hi, s[j]);
      TsLessStrictTotal(hi, s[j], lo);
      assert false;
      []
    else
      WindowMembers(s, lo, hi, i, j);
      s[i..j]
  }

  /** The stamps between a lower and an upper bound are exactly those in the closed range, ascending. */
  lemma WindowMembers(s: seq<TimeStamp>, lo: TimeStamp, hi: TimeStamp, i: nat, j: nat)
    requires Ascending(s)
    requires i == LowerBound(s, lo) && j == UpperBound(s, hi) && i <= j
    ensures forall x :: x in s[i..j] <==> x in s && TsLessEq(lo, x) && TsLessEq(x, hi)
    ensures forall a, b :: 0 <= a < b < |s[i..j]| ==> TsLess(s[i..j][a], s[i..j][b])
  {
    forall x | x in s
      ensures x in s[i..j] <==> TsLessEq(lo, x) && TsLessEq(x, hi)
    {
      var k :| 0 <= k < |s| && s[k] == x;
      TimeStampOperators(lo, x);
      TimeStampOperators(x, hi);
      forall k' | i <= k' < j && s[k'] == x ensures k' == k {
        AscendingUnique(s, k, k');
      }
      assert x in s[i..j] <==> exists k' :: i <= k' < j && s[k'] == x;
    }
    assert forall p :: 0 <= p < j - i ==> s[i..j][p] == s[i + p];
  }

  /** The per-day query keeps exactly the stored time stamps of that date whose (hour, minute) lies in [(0,0), (23,59)]. */
  lemma TimeStampsOnIsDay(ss: SnapShots, d: Date, x: TimeStamp)
    requires Valid(ss)
    ensures x in TimeStampsOn(ss, d) <==>
              x in ss.stamps && x.date == d &&
              !LexLess((x.hour, x.minute, 0), (0, 0, 0)) && !LexLess((23, 59, 0), (x.hour, x.minute, 0))
  {
    TimeStampOperators(TimeStamp(d, 0, 0), x);
    TimeStampOperators(x, TimeStamp(d, 23, 59));
    DateOperators(d, x.date);
    DateOperators(x.date, d);
  }
}
