/**
 * The sidepanel's small value helpers: the phone spelling sent to ResOS, HHMM
 * times (`parseTimeToHHMM`, `formatHHMM`), the bookable time slots between an
 * opening and a closing time, the party size of a hotel stay, and the short name
 * and sort key of a restaurant table.
 */
module Formatting {
  import opened Js
  import opened Records
  import opened FieldRoles

  // ---------------------------------------------------------------------
  // formatPhoneForResos
  // ---------------------------------------------------------------------

  /** `s.replace(/\D/g, '')`: the ASCII digits of `s`, in order. */
  function DigitsOf(s: string): (r: string)
    ensures AllDigits(r) && |r| <= |s|
    decreases |s|
  {
    if |s| == 0 then ""
    else DigitsOf(s[..|s| - 1]) + (if IsDigit(s[|s| - 1]) then [s[|s| - 1]] else "")
  }

  lemma {:induction false} DigitsOfAppend(a: string, b: string)
    ensures DigitsOf(a + b) == DigitsOf(a) + DigitsOf(b)
    decreases |b|
  {
    if |b| == 0 {
      assert a + b == a;
    } else {
      assert (a + b)[..|a + b| - 1] == a + b[..|b| - 1];
      DigitsOfAppend(a, b[..|b| - 1]);
    }
  }

  lemma {:induction false} DigitsOfDigits(s: string)
    requires AllDigits(s)
    ensures DigitsOf(s) == s
    decreases |s|
  {
    if |s| > 0 {
      DigitsOfDigits(s[..|s| - 1]);
      assert s[..|s| - 1] + [s[|s| - 1]] == s;
    }
  }

  lemma {:induction false} DigitsOfNoDigits(s: string)
    requires forall i :: 0 <= i < |s| ==> !IsDigit(s[i])
    ensures DigitsOf(s) == ""
    decreases |s|
  {
    if |s| > 0 {
      DigitsOfNoDigits(s[..|s| - 1]);
    }
  }

  /**
   * A phone number as ResOS wants it: empty for no number, otherwise "+44" followed
   * by the number's digits with one leading trunk zero dropped.
   */
  function FormatPhoneForResos(phone: string): (r: string)
    ensures phone == "" ==> r == ""
    ensures phone != "" ==> |r| >= 3 && r[..3] == "+44" && AllDigits(r[3..])
  {
    if phone == "" then ""
    else
      var digits := DigitsOf(phone);
      "+44" + (if |digits| > 0 && digits[0] == '0' then digits[1..] else digits)
  }

  /** A national number "0" followed by digits becomes "+44" followed by those digits. */
  lemma NationalNumber(d: string)
    requires AllDigits(d)
    ensures FormatPhoneForResos("0" + d) == "+44" + d
  {
    DigitsOfDigits("0" + d);
  }

  /** A number whose first digit is not a trunk zero is prefixed with "+44" as it is. */
  lemma NoTrunkZero(d: string)
    requires AllDigits(d) && d != "" && d[0] != '0'
    ensures FormatPhoneForResos(d) == "+44" + d
  {
    DigitsOfDigits(d);
  }

  /**
   * A number already written internationally as "+44..." loses only its "+": the
   * country code stays among the digits and "+44" is put in front again.
   */
  lemma InternationalPrefixedAgain(d: string)
    requires AllDigits(d)
    ensures FormatPhoneForResos("+44" + d) == "+4444" + d
  {
    assert "+44" + d == "+" + ("44" + d);
    DigitsOfAppend("+", "44" + d);
    DigitsOfNoDigits("+");
    DigitsOfDigits("44" + d);
    assert "+44" + ("44" + d) == "+4444" + d;
  }

  /** Text with no digits at all gives the bare prefix "+44". */
  lemma NoDigitsGivesBarePrefix(phone: string)
    requires phone != ""
    requires forall i :: 0 <= i < |phone| ==> !IsDigit(phone[i])
    ensures FormatPhoneForResos(phone) == "+44"
  {
    DigitsOfNoDigits(phone);
  }

  /**
   * The phone spelling with the international form kept: a number that, once trimmed,
   * starts with "+" already carries its country code and keeps its digits as they are;
   * any other number is spelled as `FormatPhoneForResos` spells it.
   */
  function FormatPhoneKeepingCountry(phone: string): (r: string)
    ensures phone == "" ==> r == ""
    ensures phone != "" ==> |r| >= 1 && r[0] == '+' && AllDigits(r[1..])
  {
    var t := Trim(phone);
    if |t| > 0 && t[0] == '+' then "+" + DigitsOf(t) else FormatPhoneForResos(phone)
  }

  /** An international number "+" followed by digits is sent unchanged, so "+44..." keeps one "44". */
  lemma InternationalKept(d: string)
    requires AllDigits(d)
    ensures FormatPhoneKeepingCountry("+" + d) == "+" + d
  {
    var p := "+" + d;
    assert IsTrimmed(p);
    TrimOfTrimmed(p);
    DigitsOfAppend("+", d);
    DigitsOfNoDigits("+");
    DigitsOfDigits(d);
    assert "" + d == d;
  }

  /** National numbers are spelled as before: "0" followed by digits becomes "+44" followed by those digits. */
  lemma KeepingCountryNationalNumber(d: string)
    requires AllDigits(d)
    ensures FormatPhoneKeepingCountry("0" + d) == "+44" + d
  {
    var p := "0" + d;
    assert IsTrimmed(p);
    TrimOfTrimmed(p);
    NationalNumber(d);
  }

  /** Spaces, dashes and brackets between the digits do not change the result. */
  lemma PunctuationIgnored(a: string, sep: string, b: string)
    requires a + b != ""
    requires forall i :: 0 <= i < |sep| ==> !IsDigit(sep[i])
    ensures FormatPhoneForResos(a + sep + b) == FormatPhoneForResos(a + b)
  {
    DigitsOfAppend(a + sep, b);
    DigitsOfAppend(a, sep);
    DigitsOfNoDigits(sep);
    DigitsOfAppend(a, b);
    assert DigitsOf(a + sep) == DigitsOf(a);
  }

  // ---------------------------------------------------------------------
  // parseTimeToHHMM, formatHHMM
  // ---------------------------------------------------------------------

  /** The number a trimmed piece stands for: "" is 0, an optionally signed run of digits its value, anything else NaN (None). */
  function NumberOfTrimmed(t: string): Option<int> {
    if AllDigits(t) then Some(DecimalValue(t))
    else if |t| > 1 && t[0] == '-' && AllDigits(t[1..]) then Some(0 - DecimalValue(t[1..]) as int)
    else if |t| > 1 && t[0] == '+' && AllDigits(t[1..]) then Some(DecimalValue(t[1..]))
    else None
  }

  /** `Number(s)` for the pieces of a time: white space around the number is ignored. */
  function ToNumber(s: string): Option<int> {
    NumberOfTrimmed(Trim(s))
  }

  /** `parts[0] * 100 + (parts[1] || 0)` over the numbers of the pieces. */
  function CombineParts(parts: seq<string>): Option<int>
    requires |parts| >= 1
  {
    match ToNumber(parts[0])
    case None => None
    case Some(h) =>
      var m := if |parts| > 1 && ToNumber(parts[1]).Some? then ToNumber(parts[1]).value else 0;
      Some(h * 100 + m)
  }

  /**
   * `timeStr.split(':').map(Number)` then `parts[0] * 100 + (parts[1] || 0)`: NaN hours
   * give NaN (None); missing, zero or NaN minutes count as 0.
   */
  function ParseTimeToHHMM(timeStr: string): Option<int> {
    CombineParts(Split(timeStr, ':'))
  }

  /** JavaScript's `%`: the remainder takes the sign of the dividend. */
  function JsRem(a: int, b: int): (r: int)
    requires b > 0
    ensures -b < r < b
    ensures a >= 0 ==> r == a % b
    ensures a < 0 ==> r == 0 - ((0 - a) % b)
  {
    if a >= 0 then a % b else 0 - ((0 - a) % b)
  }

  /** `${String(Math.floor(hhmm / 100)).padStart(2, '0')}:${String(hhmm % 100).padStart(2, '0')}` */
  function FormatHHMM(hhmm: int): string {
    PadStart2(IntToDecimal(hhmm / 100)) + ":" + PadStart2(IntToDecimal(JsRem(hhmm, 100)))
  }

  /** A non-empty run of digits reads as its decimal value and holds no colon. */
  lemma DigitsAsNumber(s: string)
    requires AllDigits(s) && |s| >= 1
    ensures ToNumber(s) == Some(DecimalValue(s)) && ':' !in s
  {
    assert IsTrimmed(s);
    TrimOfTrimmed(s);
  }

  /** `String(n)` reads back as `n`. */
  lemma DecimalAsNumber(n: nat)
    ensures ToNumber(NatToDecimal(n)) == Some(n) && ':' !in NatToDecimal(n)
  {
    DigitsAsNumber(NatToDecimal(n));
    DecimalRoundTrip(n);
  }

  /** `String(n).padStart(2, '0')` reads back as `n`. */
  lemma PaddedAsNumber(n: nat)
    ensures ToNumber(PadStart2(NatToDecimal(n))) == Some(n) && ':' !in PadStart2(NatToDecimal(n))
  {
    PadStart2Value(NatToDecimal(n));
    DigitsAsNumber(PadStart2(NatToDecimal(n)));
    DecimalRoundTrip(n);
  }

  lemma SplitTime(a: string, b: string)
    requires ':' !in a && ':' !in b
    ensures Split(a + ":" + b, ':') == [a, b]
  {
    SplitAtSeparator(a, ':', b);
    SplitNoSeparator(b, ':');
    assert a + ":" + b == a + [':'] + b;
  }

  /** "h:m" reads as `h * 100 + m` when both pieces read as numbers and hold no colon. */
  lemma ParseTimeOf(a: string, b: string, h: int, m: int, v: int)
    requires ':' !in a && ':' !in b
    requires ToNumber(a) == Some(h) && ToNumber(b) == Some(m)
    requires v == h * 100 + m
    ensures ParseTimeToHHMM(a + ":" + b) == Some(v)
  {
    SplitTime(a, b);
    var s := a + ":" + b;
    assert ParseTimeToHHMM(s) == CombineParts([a, b]);
  }

  lemma HundredsAndRest(x: int, h: int, m: int)
    requires x >= 0 && h == x / 100 && m == x % 100
    ensures h >= 0 && 0 <= m < 100 && x == h * 100 + m
  {
  }

  lemma FormatPieces(hhmm: int, h: nat, m: nat)
    requires h == hhmm / 100 && m == JsRem(hhmm, 100)
    ensures FormatHHMM(hhmm) == PadStart2(NatToDecimal(h)) + ":" + PadStart2(NatToDecimal(m))
  {
  }

  /** Reading back what `formatHHMM` writes gives the time, for every non-negative HHMM value. */
  lemma FormatHHMMRoundTrip(hhmm: int)
    requires hhmm >= 0
    ensures ParseTimeToHHMM(FormatHHMM(hhmm)) == Some(hhmm)
  {
    var h, m := hhmm / 100, hhmm % 100;
    HundredsAndRest(hhmm, h, m);
    FormatPieces(hhmm, h, m);
    PaddedAsNumber(h);
    PaddedAsNumber(m);
    ParseTimeOf(PadStart2(NatToDecimal(h)), PadStart2(NatToDecimal(m)), h, m, hhmm);
  }

  // ---------------------------------------------------------------------
  // generateSlotsFromRange
  // ---------------------------------------------------------------------

  /** `{ timeStr, hhmm }` */
  datatype Slot = Slot(timeStr: string, hhmm: int)

  /** The minutes past midnight an HHMM value stands for, `h * 60 + m`. */
  function Minutes(hhmm: int): int {
    (hhmm / 100) * 60 + hhmm % 100
  }

  /**
   * One step of the slot loop: add the interval to the minutes and spell the sum as
   * HHMM again. The step always moves forward and leaves a minute part below 60.
   */
  function Next(current: nat, interval: int): (r: nat)
    requires interval > 0
    ensures r > current
    ensures Minutes(r) == Minutes(current) + interval
    ensures r % 100 < 60
  {
    var total := (current / 100) * 60 + current % 100 + interval;
    assert total / 60 >= current / 100;
    (total / 60) * 100 + total % 60
  }

  /** `${h}:${String(m).padStart(2, '0')}` with the slot's HHMM value. */
  function SlotAt(current: nat): Slot {
    Slot(NatToDecimal(current / 100) + ":" + PadStart2(NatToDecimal(current % 100)), current)
  }

  /**
   * The slots from `current` up to (not including) `close`: they start at `current`,
   * stay below `close`, rise strictly, and all but the first have a minute part below
   * 60. A negative start is only allowed when no slot is produced.
   */
  function SlotsFrom(current: int, close: int, interval: int): (r: seq<Slot>)
    requires interval > 0 && (current >= 0 || current >= close)
    ensures current < close <==> |r| > 0
    ensures |r| > 0 ==> r[0].hhmm == current
    ensures forall k :: 0 <= k < |r| ==> current <= r[k].hhmm < close
    ensures forall j, k :: 0 <= j < k < |r| ==> r[j].hhmm < r[k].hhmm
    ensures forall k :: 0 < k < |r| ==> r[k].hhmm % 100 < 60
    decreases close - current
  {
    if current < close then [SlotAt(current)] + SlotsFrom(Next(current, interval), close, interval) else []
  }

  /** Slot `k` lies `k` intervals after the first, counted in minutes past midnight. */
  lemma {:induction false} SlotsEvenlySpaced(current: int, close: int, interval: int)
    requires interval > 0 && (current >= 0 || current >= close)
    ensures forall k :: 0 <= k < |SlotsFrom(current, close, interval)| ==>
      Minutes(SlotsFrom(current, close, interval)[k].hhmm) == Minutes(current) + k * interval
    decreases close - current
  {
    if current < close {
      var next := Next(current, interval);
      SlotsEvenlySpaced(next, close, interval);
      var r := SlotsFrom(current, close, interval);
      var rest := SlotsFrom(next, close, interval);
      forall k | 0 < k < |r|
        ensures Minutes(r[k].hhmm) == Minutes(current) + k * interval
      {
        assert r[k] == rest[k - 1];
        assert (k - 1) * interval + interval == k * interval;
      }
    }
  }

  /**
   * No slot is missing at the end: one more step after the last slot reaches or passes
   * `close`, which is why callers pass `lastBookable + interval` as the exclusive end.
   */
  lemma {:induction false} SlotsComplete(current: int, close: int, interval: int)
    requires interval > 0 && (current >= 0 || current >= close)
    ensures var r := SlotsFrom(current, close, interval);
            |r| > 0 ==> Next(r[|r| - 1].hhmm, interval) >= close
    decreases close - current
  {
    if current < close {
      var next := Next(current, interval);
      var rest := SlotsFrom(next, close, interval);
      SlotsComplete(next, close, interval);
      var r := SlotsFrom(current, close, interval);
      assert r == [SlotAt(current)] + rest;
      if |rest| > 0 {
        assert r[|r| - 1] == rest[|rest| - 1];
      } else {
        assert r[|r| - 1].hhmm == current;
      }
    }
  }

  /** The loop only advances from a non-negative start (below zero the HHMM step can run backwards). */
  predicate StartsAtOrAfterMidnight(openStr: string, closeStr: string) {
    match (ParseTimeToHHMM(openStr), ParseTimeToHHMM(closeStr))
    case (Some(o), Some(c)) => o >= 0 || o >= c
    case _ => true
  }

  /** The slots of `generateSlotsFromRange`: none when either time is NaN, since every comparison with NaN fails. */
  function GenerateSlots(openStr: string, closeStr: string, interval: int): seq<Slot>
    requires interval > 0 && StartsAtOrAfterMidnight(openStr, closeStr)
  {
    match (ParseTimeToHHMM(openStr), ParseTimeToHHMM(closeStr))
    case (Some(o), Some(c)) => SlotsFrom(o, c, interval)
    case _ => []
  }

  /** The loop's own arithmetic is the step `Next`. */
  lemma StepIsNext(current: int, interval: int, h: int, m: int, totalMins: int, next: int)
    requires current >= 0 && interval > 0
    requires h == current / 100 && m == current % 100 && totalMins == h * 60 + m + interval
    requires next == (totalMins / 60) * 100 + totalMins % 60
    ensures next == Next(current, interval)
  {
  }

  lemma SlotIs(current: nat, h: nat, m: nat, slot: Slot)
    requires h == current / 100 && m == current % 100
    requires slot == Slot(NatToDecimal(h) + ":" + PadStart2(NatToDecimal(m)), current)
    ensures slot == SlotAt(current)
  {
  }

  lemma SlotsFromStep(current: int, close: int, interval: int)
    requires interval > 0 && 0 <= current < close
    ensures SlotsFrom(current, close, interval) == [SlotAt(current)] + SlotsFrom(Next(current, interval), close, interval)
  {
  }

  /** The loop of `generateSlotsFromRange`, from `open` while below `close`. */
  method SlotsBetween(open: int, close: int, interval: int) returns (slots: seq<Slot>)
    requires interval > 0 && (open >= 0 || open >= close)
    ensures slots == SlotsFrom(open, close, interval)
  {
    slots := [];
    var current := open;
    while current < close
      invariant current >= 0 || current >= close
      invariant slots + SlotsFrom(current, close, interval) == SlotsFrom(open, close, interval)
      decreases close - current
    {
      var h := current / 100;
      var m := current % 100;
      var slot := Slot(NatToDecimal(h) + ":" + PadStart2(NatToDecimal(m)), current);
      SlotIs(current, h, m, slot);
      SlotsFromStep(current, close, interval);
      AppendAssociative(slots, [slot], SlotsFrom(Next(current, interval), close, interval));
      slots := slots + [slot];
      var totalMins := h * 60 + m + interval;
      var next := (totalMins / 60) * 100 + totalMins % 60;
      StepIsNext(current, interval, h, m, totalMins, next);
      current := next;
    }
  }

  /** `generateSlotsFromRange(openStr, closeStr, interval)` */
  method GenerateSlotsFromRange(openStr: string, closeStr: string, interval: int) returns (slots: seq<Slot>)
    requires interval > 0 && StartsAtOrAfterMidnight(openStr, closeStr)
    ensures slots == GenerateSlots(openStr, closeStr, interval)
  {
    var open := ParseTimeToHHMM(openStr);
    var close := ParseTimeToHHMM(closeStr);
    if open.None? || close.None? {
      return [];
    }
    slots := SlotsBetween(open.value, close.value, interval);
  }

  /** Every slot's label reads back as its HHMM value. */
  lemma {:induction false} SlotLabelsReadBack(current: int, close: int, interval: int)
    requires interval > 0 && (current >= 0 || current >= close)
    ensures forall k :: 0 <= k < |SlotsFrom(current, close, interval)| ==>
      ParseTimeToHHMM(SlotsFrom(current, close, interval)[k].timeStr) == Some(SlotsFrom(current, close, interval)[k].hhmm)
    decreases close - current
  {
    if current < close {
      var next := Next(current, interval);
      SlotLabelsReadBack(next, close, interval);
      SlotLabelReadsBack(current);
      var r := SlotsFrom(current, close, interval);
      var rest := SlotsFrom(next, close, interval);
      assert r == [SlotAt(current)] + rest;
      forall k | 0 < k < |r|
        ensures ParseTimeToHHMM(r[k].timeStr) == Some(r[k].hhmm)
      {
        assert r[k] == rest[k - 1];
      }
    }
  }

  lemma SlotLabelReadsBack(current: nat)
    ensures ParseTimeToHHMM(SlotAt(current).timeStr) == Some(current)
  {
    var h, m := current / 100, current % 100;
    HundredsAndRest(current, h, m);
    DecimalAsNumber(h);
    PaddedAsNumber(m);
    ParseTimeOf(NatToDecimal(h), PadStart2(NatToDecimal(m)), h, m, current);
  }

  // ---------------------------------------------------------------------
  // getTotalGuests
  // ---------------------------------------------------------------------

  /** The longest prefix of `s` made of digits. */
  function DigitPrefix(s: string): (r: string)
    ensures AllDigits(r) && |r| <= |s| && r == s[..|r|]
    ensures |r| < |s| ==> !IsDigit(s[|r|])
    decreases |s|
  {
    if |s| > 0 && IsDigit(s[0]) then [s[0]] + DigitPrefix(s[1..]) else ""
  }

  /** An optional sign, then the longest run of digits; no digit at all is NaN (None). */
  function SignedDigitPrefix(t: string): Option<int> {
    var body := if |t| > 0 && (t[0] == '-' || t[0] == '+') then t[1..] else t;
    var d := DigitPrefix(body);
    if d == "" then None
    else if |t| > 0 && t[0] == '-' then Some(0 - DecimalValue(d) as int)
    else Some(DecimalValue(d))
  }

  /** `parseInt(String(v))`: leading white space is skipped. */
  function ParseInt(s: string): Option<int> {
    SignedDigitPrefix(TrimStart(s))
  }

  /** `parseInt(v) || 0` */
  function GuestCount(v: JsValue): int {
    match ParseInt(ToJsString(v))
    case None => 0
    case Some(n) => n
  }

  /** Adults, children and infants of a stay added up, each unreadable count as 0. */
  function TotalGuests(nb: HotelBooking): int {
    GuestCount(nb.adults) + GuestCount(nb.children) + GuestCount(nb.infants)
  }

  lemma {:induction false} DigitPrefixOf(d: string, rest: string)
    requires AllDigits(d)
    requires rest == "" || !IsDigit(rest[0])
    ensures DigitPrefix(d + rest) == d
    decreases |d|
  {
    if |d| > 0 {
      assert (d + rest)[1..] == d[1..] + rest;
      DigitPrefixOf(d[1..], rest);
      assert [d[0]] + d[1..] == d;
    } else {
      assert d + rest == rest;
    }
  }

  lemma NoLeadingSpace(t: string)
    requires |t| > 0 && !IsSpace(t[0])
    ensures TrimStart(t) == t
  {
  }

  lemma UnsignedDigitPrefix(t: string, d: string, rest: string, v: int)
    requires AllDigits(d) && |d| >= 1 && v == DecimalValue(d)
    requires rest == "" || !IsDigit(rest[0])
    requires t == d + rest
    ensures SignedDigitPrefix(t) == Some(v)
  {
    DigitPrefixOf(d, rest);
    assert t[0] == d[0];
  }

  lemma NegativeDigitPrefix(t: string, d: string, v: int)
    requires |t| > 0 && t[0] == '-'
    requires |d| >= 1 && DigitPrefix(t[1..]) == d && v == 0 - DecimalValue(d)
    ensures SignedDigitPrefix(t) == Some(v)
  {
  }

  /** A run of digits worth `v`, followed by text that does not start with a digit. */
  lemma LeadingDigits(d: string, rest: string, v: int)
    requires AllDigits(d) && |d| >= 1 && v == DecimalValue(d)
    requires rest == "" || !IsDigit(rest[0])
    ensures ParseInt(d + rest) == Some(v)
  {
    NoLeadingSpace(d + rest);
    UnsignedDigitPrefix(d + rest, d, rest, v);
  }

  /** A minus sign and a run of digits worth `-v`, followed by text that does not start with a digit. */
  lemma LeadingNegativeDigits(d: string, rest: string, v: int)
    requires AllDigits(d) && |d| >= 1 && v == 0 - DecimalValue(d)
    requires rest == "" || !IsDigit(rest[0])
    ensures ParseInt("-" + (d + rest)) == Some(v)
  {
    var s := d + rest;
    DigitPrefixOf(d, rest);
    var t := "-" + s;
    assert t[0] == '-' && t[1..] == s;
    NoLeadingSpace(t);
    NegativeDigitPrefix(t, d, v);
  }

  lemma NegativeSpelling(i: int, rest: string)
    requires i < 0
    ensures IntToDecimal(i) + rest == "-" + (NatToDecimal(0 - i) + rest)
  {
  }

  /** `parseInt` reads a number followed by text that does not start with a digit, such as "2 adults". */
  lemma ParseIntPrefix(i: int, rest: string)
    requires rest == "" || !IsDigit(rest[0])
    ensures ParseInt(IntToDecimal(i) + rest) == Some(i)
  {
    if i < 0 {
      DecimalRoundTrip(0 - i);
      LeadingNegativeDigits(NatToDecimal(0 - i), rest, i);
      NegativeSpelling(i, rest);
    } else {
      DecimalRoundTrip(i);
      LeadingDigits(NatToDecimal(i), rest, i);
    }
  }

  /** A count given as a number is that number. */
  lemma GuestCountOfNumber(n: int)
    ensures GuestCount(Num(n)) == n
  {
    ParseIntPrefix(n, "");
    assert IntToDecimal(n) + "" == IntToDecimal(n);
  }

  /** A missing count reads as NaN and counts as 0. */
  lemma GuestCountOfMissing()
    ensures GuestCount(Undefined) == 0
  {
    var u := "undefined";
    NoLeadingSpace(u);
    assert DigitPrefix(u) == "";
    assert SignedDigitPrefix(u) == None;
  }

  /** Counts given as numbers add up; a missing count adds nothing. */
  lemma TotalGuestsOfNumbers(nb: HotelBooking, a: int, c: int, i: int)
    requires nb.adults == Num(a) && nb.children == Num(c)
    requires nb.infants == Num(i) || nb.infants == Undefined
    ensures TotalGuests(nb) == a + c + (if nb.infants == Undefined then 0 else i)
  {
    GuestCountOfNumber(a);
    GuestCountOfNumber(c);
    GuestCountOfNumber(i);
    GuestCountOfMissing();
  }

  // ---------------------------------------------------------------------
  // shortenSingleTable, getTableSortNumber
  // ---------------------------------------------------------------------

  /** The length of the run of white space `s` starts with. */
  function LeadingSpace(s: string): (n: nat)
    ensures n <= |s| && (forall i :: 0 <= i < n ==> IsSpace(s[i])) && (n < |s| ==> !IsSpace(s[n]))
    decreases |s|
  {
    if |s| > 0 && IsSpace(s[0]) then 1 + LeadingSpace(s[1..]) else 0
  }

  /** The digits `/^table\s+(\d+)$/i` captures, if `name` matches. */
  function TableNumber(name: string): Option<string> {
    if |name| >= 5 && ToLower(name[..5]) == "table" then
      var rest := name[5..];
      var n := LeadingSpace(rest);
      if 0 < n < |rest| && AllDigits(rest[n..]) then Some(rest[n..]) else None
    else None
  }

  /** "Table 12" (any letter case, any white space) becomes "T12"; other names stay as they are. */
  function ShortenSingleTable(name: string): (r: string)
    ensures r == name || (|r| >= 2 && r[0] == 'T' && AllDigits(r[1..]))
  {
    match TableNumber(name)
    case Some(d) => "T" + d
    case None => name
  }

  lemma {:induction false} LeadingSpaceOf(sp: string, rest: string)
    requires forall i :: 0 <= i < |sp| ==> IsSpace(sp[i])
    requires rest == "" || !IsSpace(rest[0])
    ensures LeadingSpace(sp + rest) == |sp|
    decreases |sp|
  {
    if |sp| > 0 {
      assert (sp + rest)[1..] == sp[1..] + rest;
      LeadingSpaceOf(sp[1..], rest);
    } else {
      assert sp + rest == rest;
    }
  }

  /** The word "table" in any letter case, white space and a number shorten to "T" and the number. */
  lemma ShortenTableName(word: string, sp: string, d: string)
    requires |word| == 5 && ToLower(word) == "table"
    requires |sp| >= 1 && forall i :: 0 <= i < |sp| ==> IsSpace(sp[i])
    requires |d| >= 1 && AllDigits(d)
    ensures ShortenSingleTable(word + sp + d) == "T" + d
  {
    var name := word + sp + d;
    assert name[..5] == word;
    assert name[5..] == sp + d;
    LeadingSpaceOf(sp, d);
    assert (sp + d)[|sp|..] == d;
  }

  /** Conversely, a name that is shortened is "table" in some letter case, white space and the number kept. */
  lemma ShortenedNameForm(name: string)
    requires ShortenSingleTable(name) != name
    ensures var d := ShortenSingleTable(name)[1..];
      |name| >= 6 + |d| - 1 && |d| >= 1 && ToLower(name[..5]) == "table"
      && (forall i :: 5 <= i < |name| - |d| ==> IsSpace(name[i]))
      && |name| - |d| > 5 && name[|name| - |d|..] == d
  {
    var rest := name[5..];
    var n := LeadingSpace(rest);
    assert forall i :: 5 <= i < 5 + n ==> name[i] == rest[i - 5];
  }

  /** Shortening a shortened name changes nothing. */
  lemma ShortenIdempotent(name: string)
    ensures ShortenSingleTable(ShortenSingleTable(name)) == ShortenSingleTable(name)
  {
    var r := ShortenSingleTable(name);
    if r != name && |r| >= 5 {
      assert IsDigit(r[1]);
      assert ToLower(r[..5])[1] == r[1];
    }
  }

  /** The number in the first run of digits of a table name, 9999 when there is none. */
  function TableSortNumber(name: string): nat {
    if name == "" then 9999
    else
      match FirstIndex(name, IsDigit)
      case None => 9999
      case Some(i) => DecimalValue(DigitPrefix(name[i..]))
  }

  /** A name without digits sorts after every numbered table up to 9999. */
  lemma NoDigitsSortLast(name: string)
    requires forall i :: 0 <= i < |name| ==> !IsDigit(name[i])
    ensures TableSortNumber(name) == 9999
  {
  }

  /** The sort number is the first number written in the name. */
  lemma TableSortNumberOf(p: string, n: nat, q: string)
    requires forall i :: 0 <= i < |p| ==> !IsDigit(p[i])
    requires q == "" || !IsDigit(q[0])
    ensures TableSortNumber(p + NatToDecimal(n) + q) == n
  {
    var d := NatToDecimal(n);
    var s := p + d + q;
    assert s[|p|] == d[0];
    assert IsFirst(s, |p|, IsDigit);
    match FirstIndex(s, IsDigit)
    case Some(i) =>
      FirstIsUnique(s, i, |p|, IsDigit);
      assert s[|p|..] == d + q;
      DigitPrefixOf(d, q);
      DecimalRoundTrip(n);
  }

  /** A table keeps its sort number when its name is shortened. */
  lemma ShortenKeepsSortNumber(word: string, sp: string, n: nat)
    requires |word| == 5 && ToLower(word) == "table"
    requires |sp| >= 1 && forall i :: 0 <= i < |sp| ==> IsSpace(sp[i])
    ensures TableSortNumber(ShortenSingleTable(word + sp + NatToDecimal(n))) == n
    ensures TableSortNumber(word + sp + NatToDecimal(n)) == n
  {
    ShortenTableName(word, sp, NatToDecimal(n));
    TableSortNumberOf("T", n, "");
    assert "T" + NatToDecimal(n) + "" == "T" + NatToDecimal(n);
    var p := word + sp;
    forall i | 0 <= i < |p| ensures !IsDigit(p[i]) {
      if i < 5 {
        assert ToLower(word)[i] == LowerChar(word[i]);
      }
    }
    TableSortNumberOf(p, n, "");
    assert p + NatToDecimal(n) + "" == word + sp + NatToDecimal(n);
  }
}
