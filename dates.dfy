/** Calendar dates as Python's `datetime.date` treats them: validity of a
    (year, month, day) triple, the proleptic Gregorian ordinal that
    `date.toordinal()` returns (so that `(a - b).days` is a difference of
    ordinals), and the parser behind `datetime.strptime(s, "%d %B %Y")` with
    English month names. */
module Dates {
  import opened Wrappers
  import opened Text

  datatype Date = Date(year: int, month: int, day: int)

  predicate IsLeap(y: int) {
    y % 4 == 0 && (y % 100 != 0 || y % 400 == 0)
  }

  function DaysInMonth(y: int, m: int): (n: int)
    requires 1 <= m <= 12
    ensures 28 <= n <= 31
  {
    if m == 2 then (if IsLeap(y) then 29 else 28)
    else if m == 4 || m == 6 || m == 9 || m == 11 then 30
    else 31
  }

  /** The dates `datetime.date` accepts: years 1 to 9999 and a day that
      exists in its month. */
  predicate ValidDate(d: Date) {
    1 <= d.year <= 9999 && 1 <= d.month <= 12 && 1 <= d.day <= DaysInMonth(d.year, d.month)
  }

  /** A value of Python's `datetime.date`, which is always a valid date. */
  type CalendarDate = d: Date | ValidDate(d) witness Date(1, 1, 1)

  /** Days in the months of year `y` before month `m`. */
  function DaysBeforeMonth(y: int, m: int): int
    requires 1 <= m <= 12
  {
    [0, 31, 59, 90, 120, 151, 181, 212, 243, 273, 304, 334][m - 1]
      + (if m > 2 && IsLeap(y) then 1 else 0)
  }

  /** Days in the years before year `y`, counting from year 1. */
  function DaysBeforeYear(y: int): int
    requires y >= 1
  {
    var y1 := y - 1;
    y1 * 365 + y1 / 4 - y1 / 100 + y1 / 400
  }

  /** `date.toordinal()`: 0001-01-01 is day 1. */
  function Ordinal(d: Date): (o: int)
    requires ValidDate(d)
    ensures 1 <= o
    ensures DaysBeforeYear(d.year) < o <= DaysBeforeYear(d.year) + (if IsLeap(d.year) then 366 else 365)
  {
    DaysBeforeYear(d.year) + DaysBeforeMonth(d.year, d.month) + d.day
  }

  /** The calendar day after `d`. */
  function NextDay(d: Date): Date
    requires ValidDate(d)
  {
    if d.day < DaysInMonth(d.year, d.month) then Date(d.year, d.month, d.day + 1)
    else if d.month < 12 then Date(d.year, d.month + 1, 1)
    else Date(d.year + 1, 1, 1)
  }

  lemma DaysBeforeMonthStep(y: int, m: int)
    requires 1 <= m < 12
    ensures DaysBeforeMonth(y, m + 1) == DaysBeforeMonth(y, m) + DaysInMonth(y, m)
  {
  }

  lemma DaysBeforeYearStep(y: int)
    requires y >= 1
    ensures DaysBeforeYear(y + 1) == DaysBeforeYear(y) + (if IsLeap(y) then 366 else 365)
  {
    var q4, r4 := y / 4, y % 4;
    var q100, r100 := y / 100, y % 100;
    var q400, r400 := y / 400, y % 400;
    assert (y - 1) / 4 == (if r4 == 0 then q4 - 1 else q4);
    assert (y - 1) / 100 == (if r100 == 0 then q100 - 1 else q100);
    assert (y - 1) / 400 == (if r400 == 0 then q400 - 1 else q400);
  }

  /** Consecutive calendar days have consecutive ordinals, so a difference
      of ordinals counts whole days. */
  lemma OrdinalNextDay(d: Date)
    requires ValidDate(d) && ValidDate(NextDay(d))
    ensures Ordinal(NextDay(d)) == Ordinal(d) + 1
  {
    if d.day < DaysInMonth(d.year, d.month) {
    } else if d.month < 12 {
      DaysBeforeMonthStep(d.year, d.month);
    } else {
      DaysBeforeYearStep(d.year);
    }
  }

  /** Full English month names, as `%B` matches and formats them. */
  const MonthNames: seq<string> := ["January", "February", "March", "April", "May", "June",
    "July", "August", "September", "October", "November", "December"]

  const LowerMonthNames: seq<string> := ["january", "february", "march", "april", "may", "june",
    "july", "august", "september", "october", "november", "december"]

  /** A token read by the parser: its numeric value and how many characters
      it spans. */
  datatype Token = Token(value: nat, len: nat)

  /** The `%d` directive, whose pattern is the alternation
      `3[01] | [12]\d | 0[1-9] | [1-9] | ' '[1-9]`, tried in that order.  The
      directive is followed by `\s+`, so only an alternative followed by a
      whitespace character can be part of a match. */
  function DayToken(s: string): (t: Option<Token>)
    ensures t.Some? ==> 1 <= t.value.len < |s| && IsSpace(s[t.value.len])
    ensures t.Some? ==> 1 <= t.value.value <= 31
  {
    if |s| >= 3 && s[0] == '3' && (s[1] == '0' || s[1] == '1') && IsSpace(s[2]) then
      Some(Token(30 + DigitValue(s[1]), 2))
    else if |s| >= 3 && (s[0] == '1' || s[0] == '2') && IsDigit(s[1]) && IsSpace(s[2]) then
      Some(Token(10 * DigitValue(s[0]) + DigitValue(s[1]), 2))
    else if |s| >= 3 && s[0] == '0' && '1' <= s[1] <= '9' && IsSpace(s[2]) then
      Some(Token(DigitValue(s[1]), 2))
    else if |s| >= 2 && '1' <= s[0] <= '9' && IsSpace(s[1]) then
      Some(Token(DigitValue(s[0]), 1))
    else if |s| >= 3 && s[0] == ' ' && '1' <= s[1] <= '9' && IsSpace(s[2]) then
      Some(Token(DigitValue(s[1]), 2))
    else None
  }

  /** `\s+` matched greedily from `i` (or nothing, when `s[i]` is not
      whitespace): the index of the first non-space character at or after
      `i`. */
  function SkipSpaces(s: string, i: nat): (j: nat)
    requires i <= |s|
    ensures i <= j <= |s|
    ensures forall k :: i <= k < j ==> IsSpace(s[k])
    ensures j < |s| ==> !IsSpace(s[j])
    decreases |s| - i
  {
    if i < |s| && IsSpace(s[i]) then SkipSpaces(s, i + 1) else i
  }

  /** The end of the run of non-space characters starting at `i`. */
  function WordEnd(s: string, i: nat): (j: nat)
    requires i <= |s|
    ensures i <= j <= |s|
    ensures forall k :: i <= k < j ==> !IsSpace(s[k])
    ensures j < |s| ==> IsSpace(s[j])
    decreases |s| - i
  {
    if i < |s| && !IsSpace(s[i]) then WordEnd(s, i + 1) else i
  }

  function FindMonth(w: string, k: nat): (m: Option<nat>)
    requires k <= 12
    ensures m.Some? ==> k < m.value <= 12 && LowerMonthNames[m.value - 1] == w
    ensures m.None? ==> forall i :: k <= i < 12 ==> LowerMonthNames[i] != w
    decreases 12 - k
  {
    if k == 12 then None
    else if w == LowerMonthNames[k] then Some(k + 1)
    else FindMonth(w, k + 1)
  }

  /** The `%B` directive: a full month name in any letter case.  Month names
      contain no whitespace and none is a prefix of another, so the name
      followed by `\s+` is exactly the word before the next whitespace. */
  function MonthNamed(w: string): (m: Option<nat>)
    ensures m.Some? ==> 1 <= m.value <= 12 && Lower(w) == LowerMonthNames[m.value - 1]
    ensures m.None? ==> forall i :: 0 <= i < 12 ==> Lower(w) != LowerMonthNames[i]
  {
    FindMonth(Lower(w), 0)
  }

  predicate DigitsAt(s: string, k: nat, n: nat) {
    k + n <= |s| && forall i :: k <= i < k + n ==> IsDigit(s[i])
  }

  function FourDigitValue(s: string, k: nat): (v: nat)
    requires DigitsAt(s, k, 4)
    ensures v < 10000
  {
    1000 * DigitValue(s[k]) + 100 * DigitValue(s[k + 1]) + 10 * DigitValue(s[k + 2]) + DigitValue(s[k + 3])
  }

  /** `datetime.strptime(s, "%d %B %Y").date()`, or None where it raises
      `ValueError`.  The format compiles to the pattern
      `%d \s+ %B \s+ \d\d\d\d` matched at the start of `s`; characters left
      after the year are an error ("unconverted data remains"), and so is a
      day that does not exist in the month or the year 0. */
  function ParseDate(s: string): (r: Option<Date>)
    ensures r.Some? ==> ValidDate(r.value)
  {
    match DayToken(s)
    case None => None
    case Some(dt) =>
      var j := SkipSpaces(s, dt.len);
      var e := WordEnd(s, j);
      if e == |s| then None
      else
        match MonthNamed(s[j..e])
        case None => None
        case Some(month) =>
          var k := SkipSpaces(s, e);
          if !DigitsAt(s, k, 4) || k + 4 != |s| then None
          else
            var d := Date(FourDigitValue(s, k), month, dt.value);
            if ValidDate(d) then Some(d) else None
  }

  function TwoDigits(n: nat): (r: string)
    requires n < 100
  {
    [DigitChar(n / 10), DigitChar(n % 10)]
  }

  function FourDigits(n: nat): (r: string)
    requires n < 10000
  {
    [DigitChar(n / 1000), DigitChar(n / 100 % 10), DigitChar(n / 10 % 10), DigitChar(n % 10)]
  }

  /** `date.strftime("%d %B %Y")`: the format the expiry list is written in,
      e.g. "18 January 2028". */
  function FormatDate(d: Date): string
    requires ValidDate(d)
  {
    TwoDigits(d.day) + " " + MonthNames[d.month - 1] + " " + FourDigits(d.year)
  }

  predicate AnySpace(s: string) {
    exists k :: 0 <= k < |s| && IsSpace(s[k])
  }

  /** `%B` writes the English month name, which `strptime` reads back
      case-insensitively. */
  lemma LowerMonthName(m: nat)
    requires 1 <= m <= 12
    ensures Lower(MonthNames[m - 1]) == LowerMonthNames[m - 1]
  {
    var n, l := MonthNames[m - 1], LowerMonthNames[m - 1];
    assert |Lower(n)| == |l|;
    forall k | 0 <= k < |l| ensures Lower(n)[k] == l[k] {
    }
  }

  /** Every month name is a single word of at least three letters. */
  lemma MonthNameWord(m: nat)
    requires 1 <= m <= 12
    ensures !AnySpace(MonthNames[m - 1]) && |MonthNames[m - 1]| >= 3
  {
  }

  lemma FourDigitsValue(n: nat, s: string, k: nat)
    requires n < 10000 && k + 4 <= |s| && s[k..k + 4] == FourDigits(n)
    ensures DigitsAt(s, k, 4) && FourDigitValue(s, k) == n
  {
    assert s[k] == FourDigits(n)[0] && s[k + 1] == FourDigits(n)[1];
    assert s[k + 2] == FourDigits(n)[2] && s[k + 3] == FourDigits(n)[3];
    var a := n / 10;
    var b := a / 10;
    assert n == 10 * a + n % 10;
    assert a == 10 * b + a % 10;
    assert b == 10 * (b / 10) + b % 10;
    assert b / 10 == n / 1000 && b % 10 == n / 100 % 10;
  }

  /** The day field of a formatted date scans back as its day. */
  lemma FormatDateDay(d: Date)
    requires ValidDate(d)
    ensures DayToken(FormatDate(d)) == Some(Token(d.day, 2))
    ensures SkipSpaces(FormatDate(d), 2) == 3
  {
    var s := FormatDate(d);
    var name := MonthNames[d.month - 1];
    MonthNameWord(d.month);
    assert s[0] == DigitChar(d.day / 10) && s[1] == DigitChar(d.day % 10) && s[2] == ' ';
    assert DigitValue(s[0]) == d.day / 10 && DigitValue(s[1]) == d.day % 10;
    assert s[3] == name[0];
  }

  /** In `dd name yyyy` with a one-word name, the name ends at the second
      space and the year starts right after it. */
  lemma WordFields(dd: string, name: string, yy: string)
    requires |dd| == 2 && |yy| == 4 && name != [] && !AnySpace(name) && !IsSpace(yy[0])
    ensures var s := dd + " " + name + " " + yy; var e := 3 + |name|;
      |s| == e + 5 && s[3..e] == name && WordEnd(s, 3) == e
      && SkipSpaces(s, e) == e + 1 && s[e + 1..] == yy
  {
    var s := dd + " " + name + " " + yy;
    var e := 3 + |name|;
    assert s[3..e] == name;
    assert s[e] == ' ' && s[e + 1] == yy[0];
    forall k | 3 <= k < e ensures !IsSpace(s[k]) {
      assert s[k] == name[k - 3];
    }
    WordEndAt(s, 3, e);
    assert s[e + 1..] == yy;
  }

  /** The month field of a formatted date is one word naming its month,
      followed by a single space. */
  lemma FormatDateMonth(d: Date)
    requires ValidDate(d)
    ensures var e := 3 + |MonthNames[d.month - 1]|;
      e + 5 == |FormatDate(d)| && WordEnd(FormatDate(d), 3) == e
      && MonthNamed(FormatDate(d)[3..e]) == Some(d.month)
      && SkipSpaces(FormatDate(d), e) == e + 1
      && FormatDate(d)[e + 1..] == FourDigits(d.year)
  {
    var name := MonthNames[d.month - 1];
    LowerMonthName(d.month);
    MonthNameWord(d.month);
    WordFields(TwoDigits(d.day), name, FourDigits(d.year));
    FindMonthIndex(d.month - 1);
  }

  /** Parsing what `strftime` wrote gives back the same date. */
  lemma ParseFormatDate(d: Date)
    requires ValidDate(d)
    ensures ParseDate(FormatDate(d)) == Some(d)
  {
    var s := FormatDate(d);
    var e := 3 + |MonthNames[d.month - 1]|;
    FormatDateDay(d);
    FormatDateMonth(d);
    FourDigitsValue(d.year, s, e + 1);
  }

  lemma {:induction false} WordEndAt(s: string, i: nat, e: nat)
    requires i <= e < |s| && IsSpace(s[e])
    requires forall k :: i <= k < e ==> !IsSpace(s[k])
    ensures WordEnd(s, i) == e
    decreases e - i
  {
    if i < e {
      WordEndAt(s, i + 1, e);
    }
  }

  lemma FindMonthIndex(k: nat)
    requires k < 12
    ensures FindMonth(LowerMonthNames[k], 0) == Some(k + 1)
  {
    forall i | 0 <= i < 12 && i != k ensures LowerMonthNames[i] != LowerMonthNames[k] {
      DistinctMonthNames(i, k);
    }
    FindMonthFrom(LowerMonthNames[k], 0, k);
  }

  lemma {:induction false} FindMonthFrom(w: string, j: nat, k: nat)
    requires j <= k < 12 && LowerMonthNames[k] == w
    requires forall i :: 0 <= i < 12 && i != k ==> LowerMonthNames[i] != w
    ensures FindMonth(w, j) == Some(k + 1)
    decreases k - j
  {
    if j < k {
      FindMonthFrom(w, j + 1, k);
    }
  }

  lemma DistinctMonthNames(i: nat, k: nat)
    requires i < 12 && k < 12 && i != k
    ensures LowerMonthNames[i] != LowerMonthNames[k]
  {
    var a, b := LowerMonthNames[i], LowerMonthNames[k];
    if |a| == |b| {
      assert a[0] != b[0] || a[1] != b[1] || a[2] != b[2];
    }
  }
}
