/** Dates, timestamps and lifetimes of signed requests. */
module Calendar {
  import opened Prelude
  import opened DecimalText
  import Lexicographic
  import Regroup

  // ---- the closed form and the calendar ----

  /** C++ division, towards zero. */
  function Truncated(a: int, b: nat): int
    requires b > 0
  {
    if a >= 0 then a / b else -(-a / b)
  }

  /** `daysFromCivil`: days since 1970-01-01. */
  function DaysFromCivil(year: int, month: nat, day: nat): int
    requires 1 <= month <= 12
  {
    var y := if month <= 2 then year - 1 else year;
    var era := Truncated(if y >= 0 then y else y - 399, 400);
    var yoe := y - era * 400;
    var doy := (153 * (if month > 2 then month - 3 else month + 9) + 2) / 5 + day - 1;
    var doe := yoe * 365 + yoe / 4 - yoe / 100 + doy;
    era * 146097 + doe - 719468
  }

  predicate IsLeap(year: int) { (year % 4 == 0 && year % 100 != 0) || year % 400 == 0 }

  function MonthDays(year: int, month: nat): nat
    requires 1 <= month <= 12
  {
    if month == 2 then if IsLeap(year) then 29 else 28
    else if month == 4 || month == 6 || month == 9 || month == 11 then 30
    else 31
  }

  datatype Date = Date(year: int, month: nat, day: nat)

  predicate Valid(d: Date) {
    1 <= d.month <= 12 && 1 <= d.day <= MonthDays(d.year, d.month)
  }

  /** The next day of the Gregorian calendar. */
  function Tomorrow(d: Date): (next: Date)
    requires Valid(d)
    ensures Valid(next)
  {
    if d.day < MonthDays(d.year, d.month) then Date(d.year, d.month, d.day + 1)
    else if d.month < 12 then Date(d.year, d.month + 1, 1)
    else Date(d.year + 1, 1, 1)
  }

  function Days(d: Date): int
    requires Valid(d)
  {
    DaysFromCivil(d.year, d.month, d.day)
  }

  lemma {:induction false} Floor(y: int)
    ensures Truncated(if y >= 0 then y else y - 399, 400) == y / 400
    ensures y - y / 400 * 400 == y % 400
  {
  }

  /** Days before a year that starts in March, from 0000-03-01. */
  function YearStart(y: int): int {
    y / 400 * 146097 + y % 400 * 365 + y % 400 / 4 - y % 400 / 100
  }

  lemma {:induction false} Closed(year: int, month: nat, day: nat)
    requires 1 <= month <= 12
    ensures var y := if month <= 2 then year - 1 else year;
            DaysFromCivil(year, month, day) ==
            YearStart(y) + (153 * (if month > 2 then month - 3 else month + 9) + 2) / 5 + day - 1 - 719468
  {
    var y := if month <= 2 then year - 1 else year;
    Floor(y);
  }

  lemma {:induction false} NextYear(y: int)
    ensures YearStart(y + 1) == YearStart(y) + if IsLeap(y + 1) then 366 else 365
  {
    var q, r := y / 400, y % 400;
    assert y == 400 * q + r;
    if r < 399 {
      assert (y + 1) / 400 == q && (y + 1) % 400 == r + 1;
      Leaps(q, r + 1);
      Quarter(r);
    } else {
      assert (y + 1) / 400 == q + 1 && (y + 1) % 400 == 0;
    }
  }

  lemma {:induction false} Leaps(q: int, r: nat)
    requires 0 < r < 400
    ensures IsLeap(400 * q + r) <==> r % 4 == 0 && r % 100 != 0
  {
    Regroup.AddMultiple(r, 4, 100 * q);
    Regroup.AddMultiple(r, 100, 4 * q);
    Regroup.AddMultiple(r, 400, q);
  }

  lemma {:induction false} Quarter(r: nat)
    ensures (r + 1) / 4 == r / 4 + (if (r + 1) % 4 == 0 then 1 else 0)
    ensures (r + 1) / 100 == r / 100 + (if (r + 1) % 100 == 0 then 1 else 0)
    ensures (r + 1) % 100 == 0 ==> (r + 1) % 4 == 0
  {
  }

  /** One day later is one day more, in every year; and the epoch is day 0.  So the closed form
      counts the days of the Gregorian calendar one by one. */
  lemma {:induction false} CountsDays(d: Date)
    requires Valid(d)
    ensures Days(Tomorrow(d)) == Days(d) + 1
    ensures Days(Date(1970, 1, 1)) == 0
  {
    hide DaysFromCivil, YearStart;
    var t := Tomorrow(d);
    Closed(d.year, d.month, d.day);
    Closed(t.year, t.month, t.day);
    NextYear(d.year - 1);
    Epoch();
  }

  lemma {:induction false} Epoch()
    ensures DaysFromCivil(1970, 1, 1) == 0
  {
  }

  // ---- order ----

  predicate Earlier(d: Date, e: Date) {
    d.year < e.year || (d.year == e.year && (d.month < e.month || (d.month == e.month && d.day < e.day)))
  }

  function MonthStart(year: int, month: nat): int
    requires 1 <= month <= 12
  {
    DaysFromCivil(year, month, 1)
  }

  lemma {:induction false} WithinMonth(d: Date)
    requires Valid(d)
    ensures Days(d) == MonthStart(d.year, d.month) + d.day - 1
  {
    hide DaysFromCivil, YearStart;
    Closed(d.year, d.month, d.day);
    Closed(d.year, d.month, 1);
  }

  lemma {:induction false} NextMonth(year: int, month: nat)
    requires 1 <= month <= 12
    ensures var y, m := if month < 12 then year else year + 1, if month < 12 then month + 1 else 1;
            MonthStart(y, m) == MonthStart(year, month) + MonthDays(year, month)
  {
    hide DaysFromCivil;
    var last := Date(year, month, MonthDays(year, month));
    WithinMonth(last);
    CountsDays(last);
  }

  lemma {:induction false} MonthsGrow(year: int, month: nat, n: nat, later: int, m: nat)
    requires 1 <= month <= 12 && 1 <= m <= 12 && n > 0 && 12 * later + m == 12 * year + month + n
    ensures MonthStart(later, m) >= MonthStart(year, month) + MonthDays(year, month)
    decreases n
  {
    hide MonthStart, MonthDays;
    var y, k := if m > 1 then later else later - 1, if m > 1 then m - 1 else 12;
    NextMonth(y, k);
    if n > 1 {
      MonthsGrow(year, month, n - 1, y, k);
    }
  }

  /** Dates are ordered as their day numbers are. */
  lemma {:induction false} DaysOrdered(d: Date, e: Date)
    requires Valid(d) && Valid(e)
    ensures Earlier(d, e) <==> Days(d) < Days(e)
    ensures d == e <==> Days(d) == Days(e)
  {
    hide Days, MonthStart;
    if Earlier(d, e) {
      DaysGrow(d, e);
    } else if d != e {
      DaysGrow(e, d);
    }
  }

  lemma {:induction false} DaysGrow(d: Date, e: Date)
    requires Valid(d) && Valid(e) && Earlier(d, e)
    ensures Days(d) < Days(e)
  {
    hide Days, MonthStart;
    WithinMonth(d);
    WithinMonth(e);
    if d.year != e.year || d.month != e.month {
      MonthsGrow(d.year, d.month, 12 * e.year + e.month - (12 * d.year + d.month), e.year, e.month);
    }
  }

  // ---- timestamps ----

  function Digits(s: Bytes): int {
    if AllDigits(s) then DecimalValue(s) else -1
  }

  method ParseDigits(value: Bytes, offset: nat, count: nat) returns (result: int)
    requires offset + count <= |value|
    ensures result == Digits(value[offset..offset + count])
  {
    hide DecimalValue;
    ghost var s := value[offset..offset + count];
    result := 0;
    NoDigits();
    assert s[..0] == [];
    for i := 0 to count
      invariant AllDigits(s[..i]) && result == DecimalValue(s[..i])
    {
      if !IsDigit(value[offset + i]) {
        assert !IsDigit(s[i]);
        return -1;
      }
      NextDigit(s, i);
      result := result * 10 + (value[offset + i] as int - 48);
    }
    assert s[..count] == s;
  }

  datatype Stamp = Stamp(date: Date, hour: nat, minute: nat, second: nat, millisecond: nat)

  predicate ValidStamp(t: Stamp) {
    Valid(t.date) && t.date.year >= 1 && t.hour < 24 && t.minute < 60 && t.second < 60 && t.millisecond < 1000
  }

  function Millis(t: Stamp): int
    requires ValidStamp(t)
  {
    (((Days(t.date) * 24 + t.hour) * 60 + t.minute) * 60 + t.second) * 1000 + t.millisecond
  }

  /** "YYYY-MM-DDThh:mm:ss.mmmZ" */
  predicate Shaped(s: Bytes) {
    |s| == 24 && s[4] == 45 && s[7] == 45 && s[10] == 84 && s[13] == 58 && s[16] == 58 && s[19] == 46 && s[23] == 90
  }

  lemma {:induction false} ThreeDigits(s: Bytes)
    requires |s| == 3 && AllDigits(s)
    ensures DecimalValue(s) < 1000
  {
    hide DecimalValue;
    assert s[..0] == [] && s[..3] == s;
    NoDigits();
    NextDigit(s, 0);
    NextDigit(s, 1);
    NextDigit(s, 2);
  }

  function StampOf(s: Bytes): (r: Option<Stamp>)
    ensures r.Some? ==> ValidStamp(r.value)
  {
    if !Shaped(s) then None
    else
      var year, month, day := Digits(s[0..4]), Digits(s[5..7]), Digits(s[8..10]);
      var hour, minute, second, ms := Digits(s[11..13]), Digits(s[14..16]), Digits(s[17..19]), Digits(s[20..23]);
      if year < 1 || month < 1 || month > 12 || hour < 0 || hour > 23 || minute < 0 || minute > 59
         || second < 0 || second > 59 || ms < 0 then None
      else if day < 1 || day > MonthDays(year, month) then None
      else
        ThreeDigits(s[20..23]);
        Some(Stamp(Date(year, month, day), hour, minute, second, ms))
  }

  function TimestampMillis(s: Bytes): Option<int> {
    match StampOf(s)
    case None => None
    case Some(t) => Some(Millis(t))
  }

  method ParseTimestamp(value: Bytes) returns (r: Option<int>)
    ensures r == TimestampMillis(value)
  {
    hide Digits, DaysFromCivil;
    if !Shaped(value) {
      return None;
    }
    var year := ParseDigits(value, 0, 4);
    var month := ParseDigits(value, 5, 2);
    var day := ParseDigits(value, 8, 2);
    var hour := ParseDigits(value, 11, 2);
    var minute := ParseDigits(value, 14, 2);
    var second := ParseDigits(value, 17, 2);
    var ms := ParseDigits(value, 20, 3);
    if year < 1 || month < 1 || month > 12 || hour < 0 || hour > 23 || minute < 0 || minute > 59
       || second < 0 || second > 59 || ms < 0 {
      return None;
    }
    var monthDays := [31, 28, 31, 30, 31, 30, 31, 31, 30, 31, 30, 31];
    var maximum := monthDays[month - 1];
    if month == 2 && IsLeap(year) {
      maximum := maximum + 1;
    }
    if day < 1 || day > maximum {
      return None;
    }
    r := Some((((DaysFromCivil(year, month, day) * 24 + hour) * 60 + minute) * 60 + second) * 1000 + ms);
  }

  predicate StampLess(t: Stamp, u: Stamp) {
    || Earlier(t.date, u.date)
    || (t.date == u.date
        && (t.hour < u.hour
            || (t.hour == u.hour
                && (t.minute < u.minute
                    || (t.minute == u.minute
                        && (t.second < u.second || (t.second == u.second && t.millisecond < u.millisecond)))))))
  }

  lemma {:induction false} MillisOrdered(t: Stamp, u: Stamp)
    requires ValidStamp(t) && ValidStamp(u)
    ensures StampLess(t, u) <==> Millis(t) < Millis(u)
    ensures t == u <==> Millis(t) == Millis(u)
  {
    hide Days;
    DaysOrdered(t.date, u.date);
    var d, e := Days(t.date), Days(u.date);
    Radices(d, e, t.hour, u.hour, 24);
    Radices(d * 24 + t.hour, e * 24 + u.hour, t.minute, u.minute, 60);
    Radices((d * 24 + t.hour) * 60 + t.minute, (e * 24 + u.hour) * 60 + u.minute, t.second, u.second, 60);
    hide Earlier, Valid;
  }

  /** One more digit of a mixed-radix number. */
  lemma {:induction false} Radices(x: int, y: int, u: nat, v: nat, k: nat)
    requires u < k && v < k
    ensures x * k + u < y * k + v <==> x < y || (x == y && u < v)
    ensures x * k + u == y * k + v <==> x == y && u == v
  {
    if x < y {
      RadixGap(x, y, k);
    } else if y < x {
      RadixGap(y, x, k);
    }
  }

  lemma {:induction false} RadixGap(x: int, y: int, k: nat)
    requires x < y
    ensures x * k + k <= y * k
  {
    var d: nat := y - x - 1;
    assert y * k == x * k + k + d * k;
    assert d * k >= 0;
  }

  // ---- the text order ----

  lemma {:induction false} BlockOrder(p: Bytes, q: Bytes, x: Bytes, y: Bytes)
    requires |p| == |q|
    ensures Lexicographic.Less(p + x, q + y) <==> Lexicographic.Less(p, q) || (p == q && Lexicographic.Less(x, y))
  {
    if p == [] {
      assert p + x == x && q + y == y;
    } else {
      assert (p + x)[1..] == p[1..] + x && (q + y)[1..] == q[1..] + y;
      BlockOrder(p[1..], q[1..], x, y);
      assert p == [p[0]] + p[1..] && q == [q[0]] + q[1..];
    }
  }

  lemma {:induction false} OneByte(c: Byte, d: Byte)
    ensures Lexicographic.Less([c], [d]) <==> c < d
  {
    assert [c][1..] == [] && [d][1..] == [];
  }

  /** Digit strings of one length are ordered as their numbers are. */
  lemma {:induction false} DigitOrder(p: Bytes, q: Bytes)
    requires |p| == |q| && AllDigits(p) && AllDigits(q)
    ensures Lexicographic.Less(p, q) <==> DecimalValue(p) < DecimalValue(q)
    ensures p == q <==> DecimalValue(p) == DecimalValue(q)
  {
    hide DecimalValue;
    if p != [] {
      var k := |p| - 1;
      LastDigit(p);
      LastDigit(q);
      DigitOrder(p[..k], q[..k]);
      BlockOrder(p[..k], q[..k], [p[k]], [q[k]]);
      OneByte(p[k], q[k]);
      assert p == p[..k] + [p[k]] && q == q[..k] + [q[k]];
    }
  }

  /** One field and the separator after it. */
  lemma {:induction false} FieldOrder(a: Bytes, b: Bytes, from: nat, to: nat)
    requires from <= to < |a| == |b| && a[to] == b[to] && AllDigits(a[from..to]) && AllDigits(b[from..to])
    ensures var x, y := DecimalValue(a[from..to]), DecimalValue(b[from..to]);
            Lexicographic.Less(a[from..], b[from..]) <==> x < y || (x == y && Lexicographic.Less(a[to + 1..], b[to + 1..]))
  {
    hide DecimalValue, Lexicographic.Less;
    assert a[from..] == a[from..to] + ([a[to]] + a[to + 1..]) && b[from..] == b[from..to] + ([b[to]] + b[to + 1..]);
    BlockOrder(a[from..to], b[from..to], [a[to]] + a[to + 1..], [b[to]] + b[to + 1..]);
    DigitOrder(a[from..to], b[from..to]);
    Lexicographic.CommonPrefix([a[to]], a[to + 1..], b[to + 1..]);
  }

  lemma {:induction false} TextOrder(a: Bytes, b: Bytes)
    requires StampOf(a).Some? && StampOf(b).Some?
    ensures Lexicographic.Less(a, b) <==> StampLess(StampOf(a).value, StampOf(b).value)
  {
    hide DecimalValue, Lexicographic.Less, MonthDays;
    FieldOrder(a, b, 0, 4);
    FieldOrder(a, b, 5, 7);
    FieldOrder(a, b, 8, 10);
    FieldOrder(a, b, 11, 13);
    FieldOrder(a, b, 14, 16);
    FieldOrder(a, b, 17, 19);
    FieldOrder(a, b, 20, 23);
    assert a[24..] == [] && b[24..] == [] && a[0..] == a && b[0..] == b;
    NothingLess();
  }

  lemma {:induction false} NothingLess()
    ensures !Lexicographic.Less([], [])
  {
  }

  /** Accepted timestamps count milliseconds in the order of their text. */
  lemma {:induction false} TimestampsOrdered(a: Bytes, b: Bytes)
    requires TimestampMillis(a).Some? && TimestampMillis(b).Some?
    ensures Lexicographic.Less(a, b) <==> TimestampMillis(a).value < TimestampMillis(b).value
    ensures a == b <==> TimestampMillis(a) == TimestampMillis(b)
  {
    hide StampOf, StampLess, Millis, Lexicographic.Less;
    TextOrder(a, b);
    TextOrder(b, a);
    MillisOrdered(StampOf(a).value, StampOf(b).value);
    MillisOrdered(StampOf(b).value, StampOf(a).value);
    Lexicographic.Trichotomy(a, b);
    Lexicographic.Irreflexive(a);
  }

  /** A lifetime is accepted exactly when both timestamps are, expiry comes after issue in the
      order of their text, and by no more than the maximum. */
  method ValidLifetime(issuedAt: Bytes, expiresAt: Bytes, maximumSeconds: nat) returns (ok: bool)
    ensures ok <==> TimestampMillis(issuedAt).Some? && TimestampMillis(expiresAt).Some?
                    && Lexicographic.Less(issuedAt, expiresAt)
                    && TimestampMillis(expiresAt).value - TimestampMillis(issuedAt).value <= maximumSeconds * 1000
  {
    hide TimestampMillis;
    var issued := ParseTimestamp(issuedAt);
    var expires := ParseTimestamp(expiresAt);
    if issued.None? || expires.None? {
      return false;
    }
    TimestampsOrdered(issuedAt, expiresAt);
    ok := expires.value > issued.value && expires.value - issued.value <= maximumSeconds * 1000;
  }

  // ---- what is accepted ----

  /** `n` in `width` digits. */
  function Padded(n: nat, width: nat): (s: Bytes)
    ensures |s| == width && AllDigits(s)
  {
    if width == 0 then [] else Padded(n / 10, width - 1) + [48 + n % 10]
  }

  /** Below 10^`width`. */
  function Ten(width: nat): nat { if width == 0 then 1 else 10 * Ten(width - 1) }

  lemma {:induction false} PaddedReads(n: nat, width: nat)
    requires n < Ten(width)
    ensures DecimalValue(Padded(n, width)) == n
  {
    hide DecimalValue;
    if width == 0 {
      NoDigits();
    } else {
      var s := Padded(n, width);
      PaddedReads(n / 10, width - 1);
      LastDigit(s);
      assert s[..width - 1] == Padded(n / 10, width - 1);
    }
  }

  lemma {:induction false} ReadsPadded(s: Bytes)
    requires AllDigits(s)
    ensures Padded(DecimalValue(s), |s|) == s && DecimalValue(s) < Ten(|s|)
  {
    hide DecimalValue;
    if s == [] {
      NoDigits();
    } else {
      LastDigit(s);
      var h, x: nat := s[..|s| - 1], s[|s| - 1] - 48;
      ReadsPadded(h);
      assert DecimalValue(s) / 10 == DecimalValue(h) && DecimalValue(s) % 10 == x;
      assert s == h + [s[|s| - 1]];
    }
  }

  /** "YYYY-MM-DDThh:mm:ss.mmmZ" with the parts of a timestamp. */
  function Printed(t: Stamp): (s: Bytes)
    ensures |s| == 24
  {
    Padded(if t.date.year < 0 then 0 else t.date.year, 4) + ['-' as int] + Padded(t.date.month, 2) + ['-' as int] + Padded(t.date.day, 2) + ['T' as int]
    + Padded(t.hour, 2) + [':' as int] + Padded(t.minute, 2) + [':' as int] + Padded(t.second, 2) + ['.' as int]
    + Padded(t.millisecond, 3) + ['Z' as int]
  }

  /** A time of the Gregorian calendar in the years 1 to 9999. */
  predicate InCalendar(t: Stamp) {
    && 1 <= t.date.year <= 9999 && Valid(t.date)
    && t.hour <= 23 && t.minute <= 59 && t.second <= 59 && t.millisecond <= 999
  }

  lemma {:induction false} PrintedParts(t: Stamp)
    requires InCalendar(t)
    ensures var s := Printed(t);
            && Shaped(s) && s[0..4] == Padded(t.date.year, 4) && s[5..7] == Padded(t.date.month, 2) && s[8..10] == Padded(t.date.day, 2)
            && s[11..13] == Padded(t.hour, 2) && s[14..16] == Padded(t.minute, 2) && s[17..19] == Padded(t.second, 2)
            && s[20..23] == Padded(t.millisecond, 3)
  {
    hide Padded;
  }

  lemma {:induction false} Tens()
    ensures Ten(2) == 100 && Ten(3) == 1000 && Ten(4) == 10000
  {
  }

  lemma {:induction false} DigitsPadded(n: nat, width: nat)
    requires n < Ten(width)
    ensures Digits(Padded(n, width)) == n
  {
    hide DecimalValue;
    PaddedReads(n, width);
  }

  lemma {:induction false} PaddedDigits(s: Bytes)
    requires Digits(s) >= 0
    ensures Padded(Digits(s), |s|) == s
  {
    ReadsPadded(s);
  }

  lemma {:induction false} FieldsPrint(s: Bytes, t: Stamp)
    requires Shaped(s) && InCalendar(t)
    requires s[0..4] == Padded(t.date.year, 4) && s[5..7] == Padded(t.date.month, 2) && s[8..10] == Padded(t.date.day, 2)
    requires s[11..13] == Padded(t.hour, 2) && s[14..16] == Padded(t.minute, 2) && s[17..19] == Padded(t.second, 2)
    requires s[20..23] == Padded(t.millisecond, 3)
    ensures s == Printed(t)
  {
    hide Padded;
    assert s == s[0..4] + [s[4]] + s[5..7] + [s[7]] + s[8..10] + [s[10]] + s[11..13] + [s[13]] + s[14..16] + [s[16]] + s[17..19] + [s[19]] + s[20..23] + [s[23]];
  }

  /** A text is accepted exactly when it is what printing gives for a time of the calendar, and as
      that time. */
  lemma {:induction false} StampIff(s: Bytes, t: Stamp)
    ensures StampOf(s) == Some(t) <==> InCalendar(t) && s == Printed(t)
  {
    hide Padded, DecimalValue, Printed, MonthDays, Ten;
    Tens();
    if StampOf(s) == Some(t) {
      StampFields(s, t);
      FieldsPrint(s, t);
    }
    if InCalendar(t) && s == Printed(t) {
      PrintedParts(t);
      PrintedStamp(s, t);
    }
  }

  lemma {:induction false} StampFields(s: Bytes, t: Stamp)
    requires StampOf(s) == Some(t)
    ensures Shaped(s) && InCalendar(t)
    ensures s[0..4] == Padded(t.date.year, 4) && s[5..7] == Padded(t.date.month, 2) && s[8..10] == Padded(t.date.day, 2)
    ensures s[11..13] == Padded(t.hour, 2) && s[14..16] == Padded(t.minute, 2) && s[17..19] == Padded(t.second, 2)
    ensures s[20..23] == Padded(t.millisecond, 3)
  {
    hide Padded, DecimalValue, MonthDays, Ten;
    Tens();
    YearSize(s[0..4]);
    ThreeDigits(s[20..23]);
    PaddedDigits(s[0..4]);
    PaddedDigits(s[5..7]);
    PaddedDigits(s[8..10]);
    PaddedDigits(s[11..13]);
    PaddedDigits(s[14..16]);
    PaddedDigits(s[17..19]);
    PaddedDigits(s[20..23]);
  }

  lemma {:induction false} YearSize(s: Bytes)
    requires AllDigits(s) && |s| == 4
    ensures DecimalValue(s) <= 9999
  {
    hide DecimalValue;
    ReadsPadded(s);
    Tens();
  }

  lemma {:induction false} PrintedStamp(s: Bytes, t: Stamp)
    requires InCalendar(t) && Shaped(s)
    requires s[0..4] == Padded(t.date.year, 4) && s[5..7] == Padded(t.date.month, 2) && s[8..10] == Padded(t.date.day, 2)
    requires s[11..13] == Padded(t.hour, 2) && s[14..16] == Padded(t.minute, 2) && s[17..19] == Padded(t.second, 2)
    requires s[20..23] == Padded(t.millisecond, 3)
    ensures StampOf(s) == Some(t)
  {
    hide Padded, DecimalValue, MonthDays, Ten, Digits;
    Tens();
    DayBound(t.date);
    DigitsPadded(t.date.year, 4);
    DigitsPadded(t.date.month, 2);
    DigitsPadded(t.date.day, 2);
    DigitsPadded(t.hour, 2);
    DigitsPadded(t.minute, 2);
    DigitsPadded(t.second, 2);
    DigitsPadded(t.millisecond, 3);
  }

  lemma {:induction false} DayBound(d: Date)
    requires Valid(d)
    ensures d.day <= 31 && d.month <= 12
  {
  }

  // ---- milliseconds are counted ----

  /** The next millisecond. */
  function NextMillisecond(t: Stamp): (next: Stamp)
    requires ValidStamp(t)
    ensures ValidStamp(next)
  {
    if t.millisecond < 999 then t.(millisecond := t.millisecond + 1)
    else if t.second < 59 then t.(millisecond := 0, second := t.second + 1)
    else if t.minute < 59 then t.(millisecond := 0, second := 0, minute := t.minute + 1)
    else if t.hour < 23 then t.(millisecond := 0, second := 0, minute := 0, hour := t.hour + 1)
    else Stamp(Tomorrow(t.date), 0, 0, 0, 0)
  }

  /** The count grows by one with every millisecond and is 0 at the start of 1970. */
  lemma {:induction false} CountsMilliseconds(t: Stamp)
    requires ValidStamp(t)
    ensures Millis(NextMillisecond(t)) == Millis(t) + 1
    ensures Millis(Stamp(Date(1970, 1, 1), 0, 0, 0, 0)) == 0
  {
    hide Days;
    CountsDays(t.date);
  }
}
