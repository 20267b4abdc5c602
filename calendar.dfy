/** Proleptic Gregorian dates, wall-clock times to the minute, and the fixed
    +05:30 offset of India Standard Time (IST). */
module Calendar {
  import opened Numerals

  datatype Date = Date(year: int, month: int, day: int)

  predicate IsLeap(y: int) {
    y % 4 == 0 && (y % 100 != 0 || y % 400 == 0)
  }

  function DaysInMonth(y: int, m: int): (n: int)
    requires 1 <= m <= 12
    ensures 28 <= n <= 31
    ensures n == 29 <==> m == 2 && IsLeap(y)
  {
    if m == 2 then (if IsLeap(y) then 29 else 28)
    else if m == 4 || m == 6 || m == 9 || m == 11 then 30
    else 31
  }

  predicate ValidDate(d: Date) {
    1 <= d.month <= 12 && 1 <= d.day <= DaysInMonth(d.year, d.month)
  }

  /** Calendar order: by year, then month, then day. */
  predicate Before(a: Date, b: Date) {
    a.year < b.year ||
    (a.year == b.year && (a.month < b.month || (a.month == b.month && a.day < b.day)))
  }

  /** The calendar day after d (`d + timedelta(days=1)`), rolling over month and year ends. */
  function NextDay(d: Date): (r: Date)
    requires ValidDate(d)
    ensures ValidDate(r) && Before(d, r)
  {
    if d.day < DaysInMonth(d.year, d.month) then d.(day := d.day + 1)
    else if d.month < 12 then Date(d.year, d.month + 1, 1)
    else Date(d.year + 1, 1, 1)
  }

  /** The calendar day before d (`d - timedelta(days=1)`), rolling back over month and year starts. */
  function PrevDay(d: Date): (r: Date)
    requires ValidDate(d)
    ensures ValidDate(r) && Before(r, d)
  {
    if d.day > 1 then d.(day := d.day - 1)
    else if d.month > 1 then Date(d.year, d.month - 1, DaysInMonth(d.year, d.month - 1))
    else Date(d.year - 1, 12, 31)
  }

  /** NextDay is the successor in calendar order: no valid date lies strictly between d and NextDay(d). */
  lemma NextDayIsSuccessor(d: Date, e: Date)
    requires ValidDate(d) && ValidDate(e) && Before(d, e)
    ensures NextDay(d) == e || Before(NextDay(d), e)
  {
  }

  /** PrevDay and NextDay undo each other. */
  lemma PrevNextInverse(d: Date)
    requires ValidDate(d)
    ensures PrevDay(NextDay(d)) == d
    ensures NextDay(PrevDay(d)) == d
  {
  }

  /** Stepping back from the first of January gives the last of December of the year before. */
  lemma PrevDayOfNewYear(y: int)
    ensures PrevDay(Date(y, 1, 1)) == Date(y - 1, 12, 31)
  {
  }

  /** A wall-clock time to the minute (seconds never influence anything modelled). */
  datatype DateTime = DateTime(date: Date, hour: int, minute: int)

  predicate ValidDateTime(t: DateTime) {
    ValidDate(t.date) && 0 <= t.hour < 24 && 0 <= t.minute < 60
  }

  const MinutesPerDay: int := 24 * 60

  /** The offset of IST from UTC: 5 hours 30 minutes. */
  const IstOffset: int := 5 * 60 + 30

  function MinuteOfDay(t: DateTime): int {
    60 * t.hour + t.minute
  }

  /** The time k minutes (less than a day) later. */
  function AddMinutes(t: DateTime, k: int): (r: DateTime)
    requires ValidDateTime(t) && 0 <= k < MinutesPerDay
    ensures ValidDateTime(r)
  {
    var m := MinuteOfDay(t) + k;
    if m < MinutesPerDay then DateTime(t.date, m / 60, m % 60)
    else DateTime(NextDay(t.date), (m - MinutesPerDay) / 60, (m - MinutesPerDay) % 60)
  }

  /** The time k minutes (less than a day) earlier. */
  function SubtractMinutes(t: DateTime, k: int): (r: DateTime)
    requires ValidDateTime(t) && 0 <= k < MinutesPerDay
    ensures ValidDateTime(r)
  {
    var m := MinuteOfDay(t) - k;
    if m >= 0 then DateTime(t.date, m / 60, m % 60)
    else DateTime(PrevDay(t.date), (m + MinutesPerDay) / 60, (m + MinutesPerDay) % 60)
  }

  /** Shifting forward and then back by the same amount returns the original time, and vice versa. */
  lemma AddSubtractInverse(t: DateTime, k: int)
    requires ValidDateTime(t) && 0 <= k < MinutesPerDay
    ensures SubtractMinutes(AddMinutes(t, k), k) == t
    ensures AddMinutes(SubtractMinutes(t, k), k) == t
  {
    PrevNextInverse(t.date);
  }

  /** The UTC wall-clock time u seen in IST. */
  function UtcToIst(u: DateTime): (r: DateTime)
    requires ValidDateTime(u)
    ensures ValidDateTime(r)
  {
    AddMinutes(u, IstOffset)
  }

  /** The IST wall-clock time i seen in UTC. */
  function IstToUtc(i: DateTime): (r: DateTime)
    requires ValidDateTime(i)
    ensures ValidDateTime(r)
  {
    SubtractMinutes(i, IstOffset)
  }

  /** The IST clock reads 5h30m past the UTC clock (modulo a day); the IST date is the UTC
      date advanced by one day exactly when the UTC time of day is 18:30 or later, and is
      the UTC date otherwise. */
  lemma IstShift(u: DateTime)
    requires ValidDateTime(u)
    ensures MinuteOfDay(UtcToIst(u)) == (MinuteOfDay(u) + IstOffset) % MinutesPerDay
    ensures UtcToIst(u).date == NextDay(u.date) <==> MinuteOfDay(u) >= 18 * 60 + 30
    ensures MinuteOfDay(u) < 18 * 60 + 30 ==> UtcToIst(u).date == u.date
  {
  }

  /** Converting to IST and back is the identity, in both directions. */
  lemma IstRoundTrip(u: DateTime)
    requires ValidDateTime(u)
    ensures IstToUtc(UtcToIst(u)) == u
    ensures UtcToIst(IstToUtc(u)) == u
  {
    AddSubtractInverse(u, IstOffset);
  }

  /** `%Y`: the year in at least four digits, zero-filled. */
  function YearText(y: int): (s: string)
    ensures 0 <= y < 10000 ==> |s| == 4
  {
    if 0 <= y < 10000 then Pad2(y / 100) + Pad2(y % 100)
    else if y >= 0 then NatToString(y)
    else "-" + NatToString(-y)
  }

  /** `%d`, `%m`, `%H`, `%M`: two digits, zero-filled. */
  function Pad2(n: nat): (s: string)
    requires n < 100
    ensures |s| == 2
  {
    [DigitChar(n / 10), DigitChar(n % 10)]
  }

  /** Two zero-filled digits read back as the number. */
  lemma Pad2Value(n: nat)
    requires n < 100
    ensures AllDigits(Pad2(n)) && DigitsValue(Pad2(n)) == n
  {
    var a, b := DigitChar(n / 10), DigitChar(n % 10);
    DigitsValueSnoc([], a);
    assert [] + [a] == [a];
    DigitsValueSnoc([a], b);
    assert [a] + [b] == Pad2(n);
  }

  /** A year 0..9999 is four digits reading back as the year. */
  lemma YearTextValue(y: int)
    requires 0 <= y < 10000
    ensures AllDigits(YearText(y)) && DigitsValue(YearText(y)) == y
  {
    var p, q := Pad2(y / 100), Pad2(y % 100);
    Pad2Value(y / 100);
    Pad2Value(y % 100);
    DigitsValueSnoc(p, q[0]);
    DigitsValueSnoc(p + [q[0]], q[1]);
    assert p + [q[0]] + [q[1]] == p + q;
    assert q[..1] == [q[0]];
  }
}
