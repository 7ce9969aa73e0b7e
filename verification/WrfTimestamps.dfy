/** Timestamps in the names of the WRF model's files: writing, reading and ordering them. */
module WrfTimestamps {
  import opened Arithmetic
  import opened Options
  import opened WrfCalendar

  predicate IsDigit(c: char) { '0' <= c <= '9' }

  function DigitOf(c: char): (d: nat)
    requires IsDigit(c)
    ensures d < 10
  {
    c as int - '0' as int
  }

  function CharOf(d: nat): (c: char)
    requires d < 10
    ensures IsDigit(c) && DigitOf(c) == d
  {
    (d + '0' as int) as char
  }

  predicate AllDigits(s: string) {
    forall i :: 0 <= i < |s| ==> IsDigit(s[i])
  }

  /** The number that a string of digits spells. */
  function Num(s: string): nat
    requires AllDigits(s)
  {
    if s == [] then 0 else Num(s[..|s| - 1]) * 10 + DigitOf(s[|s| - 1])
  }

  /** The last `width` digits of a number. */
  function Digits(n: nat, width: nat): (s: string)
    ensures |s| == width && AllDigits(s)
  {
    if width == 0 then [] else Digits(n / 10, width - 1) + [CharOf(n % 10)]
  }

  predicate DigitsAt(s: string, i: int, j: int) {
    0 <= i <= j <= |s| && AllDigits(s[i..j])
  }

  /** The shape of a timestamp: dashes in the date, an underscore, colons in the time, digits elsewhere. */
  predicate IsWrfDatetimeSuffix(s: string) {
    && |s| == 19 && DigitsAt(s, 0, 4) && DigitsAt(s, 5, 7) && DigitsAt(s, 8, 10) && DigitsAt(s, 11, 13) && DigitsAt(s, 14, 16)
    && DigitsAt(s, 17, 19) && s[4] == '-' && s[7] == '-' && s[10] == '_' && s[13] == ':' && s[16] == ':'
  }

  function ParseWrfTimestamp(s: string): Option<DateTime> {
    if !IsWrfDatetimeSuffix(s) then None
    else Some(DateTime(Num(s[0..4]), Num(s[5..7]), Num(s[8..10]), Num(s[11..13]), Num(s[14..16]), Num(s[17..19])))
  }

  /** A number in decimal digits. */
  function Decimal(n: nat): (s: string)
    ensures |s| >= 1
  {
    (if n < 10 then "" else Decimal(n / 10)) + [CharOf(n % 10)]
  }

  function Zeros(n: int): (s: string) {
    if n <= 0 then "" else Zeros(n - 1) + "0"
  }

  /** A number with zeros up to `width` places in front; a longer one takes more places. */
  function Printed(n: int, width: nat): string {
    var sign, digits := if n < 0 then "-" else "", Decimal(if n < 0 then -n else n);
    sign + Zeros(width - |sign| - |digits|) + digits
  }

  /** The timestamp of a date; there is none unless all fields fit. */
  function FormatTimestamp(d: DateTime): Option<string> {
    var s := Printed(d.year, 4) + "-" + Printed(d.month, 2) + "-" + Printed(d.day, 2) + "_" +
             Printed(d.hour, 2) + ":" + Printed(d.minute, 2) + ":" + Printed(d.second, 2);
    if |s| != 19 then None else Some(s)
  }

  lemma {:induction false} PrintedDigits(n: nat, width: nat)
    requires width >= 1 && n < Pow10(width)
    ensures Zeros(width - |Decimal(n)|) + Decimal(n) == Digits(n, width) == Printed(n, width)
    decreases width
  {
    if width > 1 {
      PrintedDigits(n / 10, width - 1);
      var z := Zeros(width - |Decimal(n)|);
      if n < 10 {
        assert Decimal(0) == "0";
        assert z == Zeros(width - 2) + "0";
      } else {
        assert z + (Decimal(n / 10) + [CharOf(n % 10)]) == z + Decimal(n / 10) + [CharOf(n % 10)];
      }
    } else {
      assert Digits(n / 10, 0) == "";
    }
  }

  lemma {:induction false} PrintedLength(n: nat, width: nat)
    ensures |Printed(n, width)| >= width
    ensures n >= Pow10(width) ==> |Printed(n, width)| > width
  {
    ZerosLength(width - |Decimal(n)|);
    if n >= Pow10(width) {
      DecimalLength(n, width);
    }
  }

  lemma {:induction false} ZerosLength(n: int)
    ensures |Zeros(n)| == if n <= 0 then 0 else n
    decreases n
  {
    if n > 0 {
      ZerosLength(n - 1);
    }
  }

  lemma {:induction false} DecimalLength(n: nat, width: nat)
    requires n >= Pow10(width)
    ensures |Decimal(n)| > width
  {
    if width > 0 {
      DecimalLength(n / 10, width - 1);
    }
  }

  lemma FourPlaces()
    ensures Pow10(4) == 10000 && Pow10(2) == 100
  {
    assert Pow10(3) == 1000;
  }

  /** The timestamp of a valid date up to year 9999 holds the digits of its fields; a year of five digits does not fit. */
  lemma FormatValid(d: DateTime)
    requires IsValid(d)
    ensures FormatTimestamp(d) ==
      if d.year > 9999 then None
      else Some(Digits(d.year, 4) + "-" + Digits(d.month, 2) + "-" + Digits(d.day, 2) + "_" +
                Digits(d.hour, 2) + ":" + Digits(d.minute, 2) + ":" + Digits(d.second, 2))
  {
    hide Digits, DaysInMonth, Printed;
    FourPlaces();
    assert d.day <= 31 by {
      MonthsShort(d.year, d.month);
    }
    PrintedDigits(d.month, 2);
    PrintedDigits(d.day, 2);
    PrintedDigits(d.hour, 2);
    PrintedDigits(d.minute, 2);
    PrintedDigits(d.second, 2);
    if d.year > 9999 {
      PrintedLength(d.year, 4);
    } else {
      PrintedDigits(d.year, 4);
    }
  }

  // ---------- reading back what was written ----------

  lemma {:induction false} NumOfDigits(n: nat, width: nat)
    ensures Num(Digits(n, width)) == n % Pow10(width)
  {
    if width > 0 {
      NumOfDigits(n / 10, width - 1);
      var s := Digits(n, width);
      assert s[..|s| - 1] == Digits(n / 10, width - 1);
      LowDigits(n, Pow10(width - 1));
    }
  }

  function Pow10(n: nat): (p: nat)
    ensures p > 0
  {
    if n == 0 then 1 else 10 * Pow10(n - 1)
  }

  lemma LowDigits(n: nat, p: nat)
    requires p > 0
    ensures (n / 10) % p * 10 + n % 10 == n % (10 * p)
  {
    var q, r := (n / 10) / p, (n / 10) % p;
    assert n / 10 == p * q + r && n == 10 * (n / 10) + n % 10;
    assert n == (10 * p) * q + (10 * r + n % 10) by {
      assert 10 * (p * q) == (10 * p) * q;
    }
    DivUnique(n, q, 10 * r + n % 10, 10 * p);
  }

  lemma SmallNumbers(n: nat)
    ensures n <= 9999 ==> Num(Digits(n, 4)) == n
    ensures n <= 99 ==> Num(Digits(n, 2)) == n
  {
    hide Num, Digits;
    NumOfDigits(n, 4);
    NumOfDigits(n, 2);
    FourPlaces();
  }

  /** Reading a written timestamp gives back the date. */
  lemma ParseFormatted(d: DateTime)
    requires IsValid(d) && d.year <= 9999
    ensures FormatTimestamp(d).Some? && ParseWrfTimestamp(FormatTimestamp(d).value) == Some(d)
  {
    hide Num, Digits, DaysInMonth, FormatTimestamp;
    FormatValid(d);
    assert d.day <= 31 by {
      MonthsShort(d.year, d.month);
    }
    SmallNumbers(d.year);
    SmallNumbers(d.month);
    SmallNumbers(d.day);
    SmallNumbers(d.hour);
    SmallNumbers(d.minute);
    SmallNumbers(d.second);
    var y, mo, da := Digits(d.year, 4), Digits(d.month, 2), Digits(d.day, 2);
    var h, mi, se := Digits(d.hour, 2), Digits(d.minute, 2), Digits(d.second, 2);
    var s := y + "-" + mo + "-" + da + "_" + h + ":" + mi + ":" + se;
    assert s[0..4] == y && s[5..7] == mo && s[8..10] == da && s[11..13] == h && s[14..16] == mi && s[17..19] == se;
  }

  lemma MonthsShort(year: int, month: int)
    ensures DaysInMonth(year, month) <= 31
  {
  }

  // ---------- order ----------

  /** The order of strings by their first difference. */
  predicate LexLess(s: string, t: string)
    decreases |s|
  {
    if t == [] then false
    else if s == [] then true
    else if s[0] != t[0] then s[0] < t[0]
    else LexLess(s[1..], t[1..])
  }

  lemma {:induction false} LexTotal(s: string, t: string)
    ensures !(LexLess(s, t) && LexLess(t, s))
    ensures s == t || LexLess(s, t) || LexLess(t, s)
    ensures s == t ==> !LexLess(s, t)
    decreases |s|
  {
    if s != [] && t != [] && s[0] == t[0] {
      LexTotal(s[1..], t[1..]);
      if s[1..] == t[1..] {
        assert s == [s[0]] + s[1..] && t == [t[0]] + t[1..];
      }
    }
  }

  lemma {:induction false} LexTransitive(s: string, t: string, u: string)
    requires LexLess(s, t) && LexLess(t, u)
    ensures LexLess(s, u)
    decreases |s|
  {
    if s != [] && s[0] == t[0] == u[0] {
      LexTransitive(s[1..], t[1..], u[1..]);
    }
  }

  /** Strings of one length are compared by their beginnings first, then by the rest. */
  lemma {:induction false} LexSplit(s: string, t: string, k: nat)
    requires |s| == |t| && k <= |s|
    ensures LexLess(s, t) <==> LexLess(s[..k], t[..k]) || (s[..k] == t[..k] && LexLess(s[k..], t[k..]))
    decreases k
  {
    if k == 0 {
      assert s[0..] == s && t[0..] == t && s[..0] == t[..0] == [];
    } else {
      LexSplit(s[1..], t[1..], k - 1);
      Slices(s, k);
      Slices(t, k);
    }
  }

  lemma Slices(s: string, k: nat)
    requires 0 < k <= |s|
    ensures s[..k][1..] == s[1..][..k - 1] && s[1..][k - 1..] == s[k..] && s[..k] == [s[0]] + s[1..][..k - 1]
  {
  }

  lemma LexLast(a: char, b: char)
    ensures LexLess([a], [b]) <==> a < b
  {
  }

  /** Strings of digits of one length are ordered as the numbers they spell. */
  lemma {:induction false} LexIsNumeric(s: string, t: string)
    requires |s| == |t| && AllDigits(s) && AllDigits(t)
    ensures LexLess(s, t) <==> Num(s) < Num(t)
    ensures s == t <==> Num(s) == Num(t)
    decreases |s|
  {
    hide LexLess;
    if s == [] {
      LexTotal(s, t);
    } else {
      var n := |s| - 1;
      LexSplit(s, t, n);
      LexIsNumeric(s[..n], t[..n]);
      assert s[n..] == [s[n]] && t[n..] == [t[n]];
      LexLast(s[n], t[n]);
      assert s == s[..n] + [s[n]] && t == t[..n] + [t[n]];
      LexTotal(s, t);
    }
  }

  /** Comparing from a field of digits on: the field decides, or what follows the separator does. */
  lemma FieldDecides(s: string, t: string, i: nat, j: nat)
    requires |s| == |t| && i < j < |s| && AllDigits(s[i..j]) && AllDigits(t[i..j]) && s[j] == t[j]
    ensures LexLess(s[i..], t[i..]) <==>
      Num(s[i..j]) < Num(t[i..j]) || (Num(s[i..j]) == Num(t[i..j]) && LexLess(s[j + 1..], t[j + 1..]))
  {
    hide Num;
    LexSplit(s[i..], t[i..], j - i);
    assert s[i..][..j - i] == s[i..j] && t[i..][..j - i] == t[i..j];
    assert s[i..][j - i..] == s[j..] && t[i..][j - i..] == t[j..];
    LexIsNumeric(s[i..j], t[i..j]);
    assert s[j..][1..] == s[j + 1..] && t[j..][1..] == t[j + 1..];
    assert LexLess(s[j..], t[j..]) <==> LexLess(s[j + 1..], t[j + 1..]);
  }

  /** The order of timestamps as strings is the order of their fields. */
  lemma LexIsFieldwise(s: string, t: string)
    requires IsWrfDatetimeSuffix(s) && IsWrfDatetimeSuffix(t)
    ensures LexLess(s, t) <==> Before(ParseWrfTimestamp(s).value, ParseWrfTimestamp(t).value)
  {
    hide LexLess, Num;
    FieldDecides(s, t, 0, 4);
    FieldDecides(s, t, 5, 7);
    FieldDecides(s, t, 8, 10);
    FieldDecides(s, t, 11, 13);
    FieldDecides(s, t, 14, 16);
    assert s[17..] == s[17..19] && t[17..] == t[17..19];
    LexIsNumeric(s[17..], t[17..]);
    assert s[0..] == s && t[0..] == t;
  }

  /** Timestamps of valid dates sort as strings in the order of time. */
  lemma LexIsChronological(s: string, t: string)
    requires IsWrfDatetimeSuffix(s) && IsWrfDatetimeSuffix(t)
    requires IsValid(ParseWrfTimestamp(s).value) && IsValid(ParseWrfTimestamp(t).value)
    ensures LexLess(s, t) <==> AbsoluteSeconds(ParseWrfTimestamp(s).value) < AbsoluteSeconds(ParseWrfTimestamp(t).value)
  {
    hide LexLess, Num, AbsoluteSeconds;
    LexIsFieldwise(s, t);
    SecondsOrdered(ParseWrfTimestamp(s).value, ParseWrfTimestamp(t).value);
  }

  // ---------- steps ----------

  /** The text is the timestamp of a valid date, so many seconds after the beginning of the calendar. */
  predicate StampOf(text: string, seconds: int) {
    IsWrfDatetimeSuffix(text) && IsValid(ParseWrfTimestamp(text).value) && AbsoluteSeconds(ParseWrfTimestamp(text).value) == seconds
  }

  /** The timestamp of a model step; from a valid start there is none for a negative step, no timestep, or a year past 9999. */
  method OutputTimestamp(step0: DateTime, timestep: int, step: int) returns (text: Option<string>)
    ensures step < 0 || timestep <= 0 ==> text == None
    ensures IsValid(step0) && text.Some? ==> StampOf(text.value, AbsoluteSeconds(step0) + step * timestep)
    ensures IsValid(step0) && text.None? && step >= 0 && timestep > 0 ==>
      AbsoluteSeconds(step0) + step * timestep >= DaysBeforeYear(10000) * DAY_SECONDS
  {
    hide AbsoluteSeconds, DaysInMonth, Digits, Num, FormatTimestamp;
    if step < 0 || timestep <= 0 {
      return None;
    }
    ElapsedNonNegative(step, timestep);
    var duration := SecsToDatetimeDuration(step * timestep);
    var date := AddDurationToDatetime(step0, duration);
    if IsValid(step0) {
      FormatValid(date);
      if date.year <= 9999 {
        ParseFormatted(date);
      } else {
        LateDate(date);
      }
    }
    text := FormatTimestamp(date);
  }

  lemma ElapsedNonNegative(step: int, timestep: int)
    requires step >= 0 && timestep > 0
    ensures step * timestep >= 0
  {
  }

  lemma LateDate(d: DateTime)
    requires IsValid(d) && d.year > 9999
    ensures AbsoluteSeconds(d) >= DaysBeforeYear(10000) * DAY_SECONDS
  {
    hide DaysBeforeYear;
    YearsGrow(10000, d.year);
    WithinYear(d);
  }

  /** The model step of a timestamp in the log, when the time since the start is a whole number of steps, not too many. */
  method CurrentStep(step0: DateTime, timestep: int, totalSteps: int, text: string) returns (step: Option<int>)
    ensures step.Some? ==> timestep > 0 && 0 <= step.value <= totalSteps && IsValid(step0)
    ensures step.Some? ==> StampOf(text, AbsoluteSeconds(step0) + Elapsed(step.value, timestep))
    ensures step.None? && timestep > 0 && IsValid(step0) ==>
      (forall n :: 0 <= n <= totalSteps ==> !StampOf(text, AbsoluteSeconds(step0) + Elapsed(n, timestep)))
  {
    hide AbsoluteSeconds, DaysInMonth, Num;
    var date := ParseWrfTimestamp(text);
    if timestep <= 0 || date.None? {
      return None;
    }
    var elapsed := DatetimeDurationSeconds(step0, date.value);
    StepsDivide(elapsed, timestep, totalSteps);
    if elapsed < 0 || elapsed % timestep != 0 {
      return None;
    }
    if elapsed / timestep > totalSteps {
      return None;
    }
    return Some(elapsed / timestep);
  }

  function Elapsed(n: int, timestep: int): int { n * timestep }

  lemma StepsDivide(elapsed: int, timestep: int, totalSteps: int)
    requires timestep > 0
    ensures elapsed >= 0 && elapsed % timestep == 0 ==> elapsed == (elapsed / timestep) * timestep && elapsed / timestep >= 0
    ensures forall n :: 0 <= n <= totalSteps && elapsed == Elapsed(n, timestep) ==>
      elapsed >= 0 && elapsed % timestep == 0 && elapsed / timestep == n
  {
    forall n | 0 <= n <= totalSteps && elapsed == Elapsed(n, timestep)
      ensures elapsed >= 0 && elapsed % timestep == 0 && elapsed / timestep == n
    {
      DivUnique(elapsed, n, 0, timestep);
      ElapsedNonNegative(n, timestep);
    }
    if elapsed >= 0 && elapsed % timestep == 0 {
      assert elapsed == timestep * (elapsed / timestep) + 0;
    }
  }

  /** From a step to its timestamp and back: the same step, for every start date, timestep and step within year 9999. */
  method StepRoundTrip(step0: DateTime, timestep: int, step: int, totalSteps: int) returns (back: Option<int>)
    requires IsValid(step0) && timestep > 0 && 0 <= step <= totalSteps
    ensures AbsoluteSeconds(step0) + step * timestep < DaysBeforeYear(10000) * DAY_SECONDS ==> back == Some(step)
  {
    hide AbsoluteSeconds, DaysBeforeYear, DaysInMonth, Num;
    var text := OutputTimestamp(step0, timestep, step);
    if text.None? {
      return None;
    }
    back := CurrentStep(step0, timestep, totalSteps, text.value);
    assert Elapsed(step, timestep) == step * timestep;
    if back.Some? {
      SameMultiple(back.value, step, timestep);
    }
  }

  lemma SameMultiple(x: int, y: int, k: int)
    requires k > 0 && x * k == y * k
    ensures x == y
  {
  }
}
