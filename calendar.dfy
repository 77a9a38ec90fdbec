/**
 * The night-role date logic: the date part of a "YYYY-MM-DD hh:mm:ss" timestamp, the
 * calendar day before a departure (what `new Date(d + 'T12:00:00')` followed by
 * `setDate(getDate() - 1)` yields) and its `${year}-${MM}-${DD}` spelling.
 */
module Calendar {
  import opened Js

  datatype Date = Date(year: int, month: int, day: int)

  /** Proleptic Gregorian leap years, as JavaScript's Date uses them. */
  predicate IsLeapYear(y: int) {
    (y % 4 == 0 && y % 100 != 0) || y % 400 == 0
  }

  function DaysInMonth(y: int, m: int): (n: int)
    requires 1 <= m <= 12
    ensures 28 <= n <= 31
  {
    if m == 2 then (if IsLeapYear(y) then 29 else 28)
    else if m == 4 || m == 6 || m == 9 || m == 11 then 30
    else 31
  }

  predicate Valid(d: Date) {
    1 <= d.month <= 12 && 1 <= d.day <= DaysInMonth(d.year, d.month)
  }

  /** The calendar day before `d`, rolling back over month and year ends. */
  function Pred(d: Date): (r: Date)
    requires Valid(d)
    ensures Valid(r)
  {
    if d.day > 1 then Date(d.year, d.month, d.day - 1)
    else if d.month > 1 then Date(d.year, d.month - 1, DaysInMonth(d.year, d.month - 1))
    else Date(d.year - 1, 12, 31)
  }

  /** The calendar day after `d`. */
  function Succ(d: Date): (r: Date)
    requires Valid(d)
    ensures Valid(r)
  {
    if d.day < DaysInMonth(d.year, d.month) then Date(d.year, d.month, d.day + 1)
    else if d.month < 12 then Date(d.year, d.month + 1, 1)
    else Date(d.year + 1, 1, 1)
  }

  lemma PredSucc(d: Date)
    requires Valid(d)
    ensures Pred(Succ(d)) == d
  {
  }

  lemma SuccPred(d: Date)
    requires Valid(d)
    ensures Succ(Pred(d)) == d
  {
  }

  /** A day of 1..31 past the end of its month carries into the next month, as V8 does. */
  function Normalize(y: int, m: int, d: int): (r: Date)
    requires 1 <= m <= 12 && 1 <= d <= 31
    ensures Valid(r)
    ensures d <= DaysInMonth(y, m) ==> r == Date(y, m, d)
  {
    if d <= DaysInMonth(y, m) then Date(y, m, d) else Date(y, m + 1, d - DaysInMonth(y, m))
  }

  /**
   * `new Date(s + 'T12:00:00')` for a date part `s`: only the form "YYYY-MM-DD" with
   * a month of 1..12 and a day of 1..31 gives a date; anything else is an invalid date.
   */
  function ParseIsoDate(s: string): (r: Option<Date>)
    ensures r.Some? ==> Valid(r.value)
  {
    if |s| == 10 && AllDigits(s[..4]) && s[4] == '-' && AllDigits(s[5..7]) && s[7] == '-' && AllDigits(s[8..]) then
      var y := DecimalValue(s[..4]);
      var m := DecimalValue(s[5..7]);
      var d := DecimalValue(s[8..]);
      if 1 <= m <= 12 && 1 <= d <= 31 then Some(Normalize(y, m, d)) else None
    else None
  }

  /** `${getFullYear()}-${String(getMonth() + 1).padStart(2, '0')}-${String(getDate()).padStart(2, '0')}` */
  function Format(d: Date): string
    requires Valid(d)
  {
    IntToDecimal(d.year) + "-" + PadStart2(NatToDecimal(d.month)) + "-" + PadStart2(NatToDecimal(d.day))
  }

  /** What the template literal gives for an invalid date. */
  const InvalidText: string := "NaN-NaN-NaN"

  /** `s.split(' ')[0]` */
  function DatePart(s: string): string {
    Split(s, ' ')[0]
  }

  /** The last night of a stay: the day before the departure date. */
  function LastNightDate(departure: string): string {
    match ParseIsoDate(DatePart(departure))
    case None => InvalidText
    case Some(d) => Format(Pred(d))
  }

  /** First night: the arrival's date part is the context date. */
  predicate IsFirstNight(arrival: string, contextDate: Option<string>) {
    contextDate.Some? && DatePart(arrival) == contextDate.value
  }

  predicate IsLastNight(departure: string, contextDate: Option<string>) {
    contextDate.Some? && LastNightDate(departure) == contextDate.value
  }

  // ---------------------------------------------------------------------
  // Properties of the spelling
  // ---------------------------------------------------------------------

  lemma {:induction false} DecimalLength(n: nat)
    ensures n < 10 ==> |NatToDecimal(n)| == 1
    ensures 10 <= n < 100 ==> |NatToDecimal(n)| == 2
    ensures 100 <= n < 1000 ==> |NatToDecimal(n)| == 3
    ensures 1000 <= n < 10000 ==> |NatToDecimal(n)| == 4
    decreases n
  {
    if n >= 10 {
      DecimalLength(n / 10);
    }
  }

  /** A month or day number spelled with two digits that read back as the number. */
  lemma TwoDigits(n: nat)
    requires 1 <= n <= 31
    ensures |PadStart2(NatToDecimal(n))| == 2 && AllDigits(PadStart2(NatToDecimal(n)))
    ensures DecimalValue(PadStart2(NatToDecimal(n))) == n
  {
    DecimalLength(n);
    DecimalRoundTrip(n);
    PadStart2Value(NatToDecimal(n));
  }

  /** Different valid dates are spelled differently. */
  lemma FormatInjective(a: Date, b: Date)
    requires Valid(a) && Valid(b)
    requires Format(a) == Format(b)
    ensures a == b
  {
    TwoDigits(a.month);
    TwoDigits(a.day);
    TwoDigits(b.month);
    TwoDigits(b.day);
    var ya, ma, da := IntToDecimal(a.year), PadStart2(NatToDecimal(a.month)), PadStart2(NatToDecimal(a.day));
    var yb, mb, db := IntToDecimal(b.year), PadStart2(NatToDecimal(b.month)), PadStart2(NatToDecimal(b.day));
    var s := Format(a);
    assert s == ya + "-" + ma + "-" + da;
    assert s == yb + "-" + mb + "-" + db;
    assert |ya| == |yb|;
    assert ya == s[..|ya|] == yb;
    assert ma == s[|ya| + 1..|ya| + 3] == mb;
    assert da == s[|ya| + 4..] == db;
    IntDecimalRoundTrip(a.year);
    IntDecimalRoundTrip(b.year);
  }

  /** Reading back a date spelled with a four-digit year gives the date. */
  lemma ParseFormat(d: Date)
    requires Valid(d) && 1000 <= d.year <= 9999
    ensures ParseIsoDate(Format(d)) == Some(d)
  {
    DecimalLength(d.year);
    DecimalRoundTrip(d.year);
    TwoDigits(d.month);
    TwoDigits(d.day);
    var y, m, dd := NatToDecimal(d.year), PadStart2(NatToDecimal(d.month)), PadStart2(NatToDecimal(d.day));
    var s := Format(d);
    assert s == y + "-" + m + "-" + dd;
    assert s[..4] == y;
    assert s[5..7] == m;
    assert s[8..] == dd;
  }

  /** The invalid-date text is never the spelling of a date. */
  lemma InvalidTextIsNoDate(d: Date)
    requires Valid(d)
    ensures Format(d) != InvalidText
  {
    var y := IntToDecimal(d.year);
    assert Format(d)[0] == y[0];
    if d.year >= 0 {
      assert IsDigit(NatToDecimal(d.year)[0]);
    }
  }

  /**
   * The last night is the context date `c` exactly when the departure's date part
   * reads as the day after `c`.
   */
  lemma LastNightIff(departure: string, c: Date)
    requires Valid(c)
    ensures LastNightDate(departure) == Format(c) <==> ParseIsoDate(DatePart(departure)) == Some(Succ(c))
  {
    match ParseIsoDate(DatePart(departure))
    case None =>
      InvalidTextIsNoDate(c);
    case Some(d) =>
      if Format(Pred(d)) == Format(c) {
        FormatInjective(Pred(d), c);
        SuccPred(d);
      }
      if d == Succ(c) {
        PredSucc(c);
      }
  }

  /** On the checkout day itself the stay is not on its last night. */
  lemma CheckoutDayIsNotLastNight(departure: string, c: Date)
    requires Valid(c)
    requires ParseIsoDate(DatePart(departure)) == Some(c)
    ensures LastNightDate(departure) != Format(c)
  {
    if LastNightDate(departure) == Format(c) {
      FormatInjective(Pred(c), c);
    }
  }
}
