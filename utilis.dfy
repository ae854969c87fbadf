/** `_utilis.py`: contract keys, symbol resolution, filename inference, the
    expiry calendar and the required-columns check. */
module Utilis {
  import opened Wrappers
  import opened Text
  import opened Dates
  import opened Configs

  /** `ContractKey`: the delivery cycle of a contract. */
  datatype ContractKey = ContractKey(year: int, month: int)

  function KeyOfDate(d: Date): ContractKey {
    ContractKey(d.year, d.month)
  }

  /** The two-digit-year pivot: 00-79 are 2000-2079, 80-99 are 1980-1999. */
  function YearFromTwoDigits(yy: nat): (y: int)
    requires yy < 100
    ensures 1980 <= y <= 2079
    ensures y % 100 == yy
    ensures (y >= 2000) <==> (yy <= 79)
  {
    if yy <= 79 then 2000 + yy else 1900 + yy
  }

  /** `int(yy)` of the two digits at `i` and `i + 1`. */
  function TwoDigitValue(s: string, i: nat): (v: nat)
    requires i + 2 <= |s| && IsDigit(s[i]) && IsDigit(s[i + 1])
    ensures v < 100
  {
    10 * DigitValue(s[i]) + DigitValue(s[i + 1])
  }

  /** The key encoded by the pattern found at position `i`: the month of
      the upper-cased letter and the pivoted year of the two digits. */
  function KeyAt(s: string, i: nat): (k: ContractKey)
    requires ContractPatternAt(s, i)
    ensures 1 <= k.month <= 12 && 1980 <= k.year <= 2079
  {
    CodeToMonthBijection();
    var mcode := UpperChar(s[i + 2]);
    assert mcode in CodeToMonth.Keys;
    assert CodeToMonth[mcode] in CodeToMonth.Values;
    ContractKey(YearFromTwoDigits(TwoDigitValue(s, i + 3)), CodeToMonth[mcode])
  }

  /** `contract_key_from_symbol`: strip and upper-case the symbol, search it
      with `CONTRACT_RE`, and read the key from the match.  The error carries
      the symbol as given. */
  function ContractKeyFromSymbol(symbol: string): (r: Result<ContractKey, string>)
    ensures r.Ok? <==> ContractReSearch(Upper(Strip(symbol))).Some?
    ensures r.Ok? ==> 1 <= r.value.month <= 12 && 1980 <= r.value.year <= 2079
    ensures r.Err? ==> r.error == symbol
  {
    var s := Upper(Strip(symbol));
    match ContractReSearch(s)
    case None => Err(symbol)
    case Some(i) => Ok(KeyAt(s, i))
  }

  /** The canonical symbol of month `m` and two-digit year `yy`. */
  function CanonicalSymbol(m: int, yy: nat): (s: string)
    requires 1 <= m <= 12 && yy < 100
  {
    "VI" + [MonthCode(m)] + TwoDigits(yy)
  }

  lemma TwoDigitsValue(yy: nat)
    requires yy < 100
    ensures var t := TwoDigits(yy);
      |t| == 2 && IsDigit(t[0]) && IsDigit(t[1])
      && 10 * DigitValue(t[0]) + DigitValue(t[1]) == yy
  {
    var t := TwoDigits(yy);
    assert DigitValue(t[0]) == yy / 10;
    assert DigitValue(t[1]) == yy % 10;
  }

  lemma MonthCodeUpper(m: int)
    requires 1 <= m <= 12
    ensures 'A' <= MonthCode(m) <= 'Z' && UpperChar(MonthCode(m)) == MonthCode(m)
  {
    FutMonthsDistinct();
    assert forall i :: 0 <= i < 12 ==> 'A' <= FutMonths[i] <= 'Z';
    assert MonthCode(m) == FutMonths[m - 1];
  }

  lemma CanonicalSymbolShape(m: int, yy: nat)
    requires 1 <= m <= 12 && yy < 100
    ensures var s := CanonicalSymbol(m, yy);
      |s| == 5 && !IsSpace(s[0]) && !IsSpace(s[4]) && Upper(s) == s
      && ContractPatternAt(s, 0) && TwoDigitValue(s, 3) == yy && s[2] == MonthCode(m)
  {
    var s := CanonicalSymbol(m, yy);
    var t := TwoDigits(yy);
    TwoDigitsValue(yy);
    MonthCodeUpper(m);
    assert s == ['V', 'I', MonthCode(m), t[0], t[1]];
    assert Upper(s) == s by {
      forall k | 0 <= k < 5 ensures Upper(s)[k] == s[k] {
      }
    }
  }

  /** Any symbol ending in `VI`, a month letter and two digits resolves to
      the month of the letter and the pivoted year of the digits, whatever
      comes in front. */
  lemma ContractKeyOfSymbol(prefix: string, m: int, yy: nat)
    requires 1 <= m <= 12 && yy < 100
    ensures ContractKeyFromSymbol(prefix + CanonicalSymbol(m, yy))
      == Ok(ContractKey(YearFromTwoDigits(yy), m))
  {
    var x := CanonicalSymbol(m, yy);
    CanonicalSymbolShape(m, yy);
    StripKeepsWord(prefix, x);
    var p := Upper(StripLeft(prefix));
    UpperConcat(StripLeft(prefix), x);
    ResolveSuffix(prefix + x, p, x);
    KeyAtCanonical(m, yy);
  }

  lemma KeyAtCanonical(m: int, yy: nat)
    requires 1 <= m <= 12 && yy < 100
    ensures ContractPatternAt(CanonicalSymbol(m, yy), 0)
    ensures KeyAt(CanonicalSymbol(m, yy), 0) == ContractKey(YearFromTwoDigits(yy), m)
  {
    CanonicalSymbolShape(m, yy);
  }

  /** Two matches with the same letter (up to case) and digits encode the
      same key. */
  lemma KeyAtSame(s: string, i: nat, t: string, j: nat)
    requires ContractPatternAt(s, i) && ContractPatternAt(t, j)
    requires UpperChar(s[i + 2]) == UpperChar(t[j + 2]) && s[i + 3] == t[j + 3] && s[i + 4] == t[j + 4]
    ensures KeyAt(s, i) == KeyAt(t, j)
  {
  }

  /** A stripped, upper-cased symbol ending in a five-character match
      resolves to the key of that match. */
  lemma ResolveSuffix(symbol: string, p: string, x: string)
    requires Upper(Strip(symbol)) == p + x && |x| == 5 && ContractPatternAt(x, 0)
    ensures ContractKeyFromSymbol(symbol) == Ok(KeyAt(x, 0))
  {
    SuffixMatch(p, x);
    ResolveFound(symbol, p + x, |p|);
  }

  /** A five-character match at the end of a string is where the contract
      pattern is found, and it encodes the same key. */
  lemma SuffixMatch(p: string, x: string)
    requires |x| == 5 && ContractPatternAt(x, 0)
    ensures ContractReSearch(p + x) == Some(|p|) && KeyAt(p + x, |p|) == KeyAt(x, 0)
  {
    PatternAtSuffix(p, x);
    KeyAtSame(p + x, |p|, x, 0);
    SearchAtEnd(p + x);
  }

  lemma UpperConcat(a: string, b: string)
    ensures Upper(a + b) == Upper(a) + Upper(b)
  {
    var l := Upper(a + b);
    var r := Upper(a) + Upper(b);
    forall k | 0 <= k < |l| ensures l[k] == r[k] {
      if k < |a| {
        assert (a + b)[k] == a[k];
      } else {
        assert (a + b)[k] == b[k - |a|];
      }
    }
  }

  lemma PatternAtSuffix(p: string, x: string)
    requires |x| == 5 && ContractPatternAt(x, 0)
    ensures ContractPatternAt(p + x, |p|)
    ensures forall k :: 0 <= k < 5 ==> (p + x)[|p| + k] == x[k]
  {
    var s := p + x;
    assert forall k :: 0 <= k < 5 ==> s[|p| + k] == x[k];
  }

  lemma SearchAtEnd(s: string)
    requires |s| >= 5 && ContractPatternAt(s, |s| - 5)
    ensures ContractReSearch(s) == Some(|s| - 5)
  {
  }

  lemma ResolveFound(symbol: string, s: string, i: nat)
    requires Upper(Strip(symbol)) == s && ContractReSearch(s) == Some(i)
    ensures ContractKeyFromSymbol(symbol) == Ok(KeyAt(s, i))
  {
  }

  /** `infer_symbol_from_filename`: the leftmost case-insensitive
      `vi<letter><2 digits>` in the name, rewritten as `VI`, the upper-cased
      letter and the digits as they were. */
  function InferSymbolFromFilename(fileName: string): (r: Option<string>)
    ensures r.None? <==> FilenameReSearch(fileName, 0).None?
    ensures r.Some? ==>
      |r.value| == 5 && r.value[..2] == "VI" && IsMonthCode(r.value[2])
      && IsDigit(r.value[3]) && IsDigit(r.value[4])
  {
    match FilenameReSearch(fileName, 0)
    case None => None
    case Some(i) => Some("VI" + [UpperChar(fileName[i + 2])] + fileName[i + 3..i + 5])
  }

  /** A word of the inferred symbol's shape is already upper case. */
  lemma UpperSymbolWord(x: string)
    requires |x| == 5 && x[..2] == "VI" && IsMonthCode(x[2]) && IsDigit(x[3]) && IsDigit(x[4])
    ensures Upper(x) == x
  {
    forall k | 0 <= k < 5 ensures Upper(x)[k] == x[k] {
      if k < 2 {
        assert x[k] == x[..2][k];
      }
    }
  }

  /** Round trip: the symbol inferred from a filename resolves to the key
      that the matched letter and digits encode. */
  lemma InferThenResolve(fileName: string)
    requires FilenameReSearch(fileName, 0).Some?
    ensures InferSymbolFromFilename(fileName).Some?
    ensures ContractKeyFromSymbol(InferSymbolFromFilename(fileName).value)
      == Ok(KeyAt(fileName, FilenameReSearch(fileName, 0).value))
  {
    var i := FilenameReSearch(fileName, 0).value;
    var x := InferSymbolFromFilename(fileName).value;
    assert x == ['V', 'I', UpperChar(fileName[i + 2]), fileName[i + 3], fileName[i + 4]];
    ResolveRewritten(fileName, i, x);
  }

  /** The match rewritten as `VI`, its upper-cased letter and its digits
      resolves to the key of the match. */
  lemma ResolveRewritten(fileName: string, i: nat, x: string)
    requires ContractPatternAt(fileName, i)
    requires x == ['V', 'I', UpperChar(fileName[i + 2]), fileName[i + 3], fileName[i + 4]]
    ensures ContractKeyFromSymbol(x) == Ok(KeyAt(fileName, i))
  {
    UpperSymbolWord(x);
    ResolveWord(x);
    KeyAtSame(x, 0, fileName, i);
  }

  /** A bare five-character upper-case symbol resolves to the key it spells. */
  lemma ResolveWord(x: string)
    requires |x| == 5 && ContractPatternAt(x, 0) && Upper(x) == x
    ensures ContractKeyFromSymbol(x) == Ok(KeyAt(x, 0))
  {
    assert x[0] == Upper(x)[0] == 'V';
    StripKeepsWord("", x);
    assert "" + x == x;
    ResolveSuffix(x, [], x);
  }

  /** The requested columns absent from `have`, in request order. */
  function Missing(have: seq<string>, want: seq<string>): seq<string> {
    if want == [] then []
    else (if want[0] in have then [] else [want[0]]) + Missing(have, want[1..])
  }

  /** A column is listed as missing exactly when it is wanted and absent. */
  lemma {:induction false} MissingMembers(have: seq<string>, want: seq<string>)
    ensures forall c :: c in Missing(have, want) <==> c in want && c !in have
    decreases |want|
  {
    if want != [] {
      MissingMembers(have, want[1..]);
      assert forall c :: c in want <==> c == want[0] || c in want[1..];
    }
  }

  /** Listing missing columns keeps the request order: the list for a
      concatenation of requests is the concatenation of the lists. */
  lemma {:induction false} MissingConcat(have: seq<string>, a: seq<string>, b: seq<string>)
    ensures Missing(have, a + b) == Missing(have, a) + Missing(have, b)
    decreases |a|
  {
    if a != [] {
      assert (a + b)[1..] == a[1..] + b;
      MissingConcat(have, a[1..], b);
    } else {
      assert a + b == b;
    }
  }

  /** `require_columns`: fails exactly when a requested column is absent,
      reporting the absent ones. */
  function RequireColumns(have: seq<string>, want: seq<string>): (r: Result<(), seq<string>>)
    ensures r.Ok? <==> forall c :: c in want ==> c in have
    ensures r.Err? ==> r.error == Missing(have, want) && r.error != []
  {
    var missing := Missing(have, want);
    MissingMembers(have, want);
    if missing == [] then Ok(())
    else
      assert missing[0] in missing;
      Err(missing)
  }

  /** What `parse_expiry_file` makes of one line of the expiry list. */
  datatype LineParse = BlankLine | BadLine(raw: string) | DateLine(date: CalendarDate)

  /** Strip the line; a blank line is skipped, any other is parsed as
      `%d %B %Y`, and the stripped text is kept for the error. */
  function ClassifyLine(line: string): (p: LineParse)
    ensures p.BlankLine? <==> AllSpace(line)
    ensures p.BadLine? ==> p.raw == Strip(line) && ParseDate(p.raw).None?
    ensures p.DateLine? ==> ParseDate(Strip(line)) == Some(p.date)
  {
    var raw := Strip(line);
    if raw == [] then BlankLine
    else
      match ParseDate(raw)
      case None => BadLine(raw)
      case Some(d) => DateLine(d)
  }

  function Classify(lines: seq<string>): (ps: seq<LineParse>)
    ensures |ps| == |lines|
  {
    if lines == [] then [] else Classify(lines[..|lines| - 1]) + [ClassifyLine(lines[|lines| - 1])]
  }

  /** The calendar built from the classified lines read so far: blank lines
      skipped, each date stored under its (year, month) with a later line
      replacing an earlier one, and the first unparsable line the error. */
  function Calendar(ps: seq<LineParse>): (r: Result<map<ContractKey, CalendarDate>, string>)
    ensures r.Err? ==> exists i :: 0 <= i < |ps| && ps[i] == BadLine(r.error)
    decreases |ps|
  {
    if ps == [] then Ok(map[])
    else
      match Calendar(ps[..|ps| - 1])
      case Err(e) => Err(e)
      case Ok(m) =>
        match ps[|ps| - 1]
        case BlankLine => Ok(m)
        case BadLine(raw) => Err(raw)
        case DateLine(d) => Ok(m[KeyOfDate(d) := d])
  }

  /** The expiry calendar of a file's lines; the error it raises is the
      stripped text of a non-blank line that does not parse as a date. */
  function ExpiryCalendar(lines: seq<string>): (r: Result<map<ContractKey, CalendarDate>, string>)
    ensures r.Err? ==>
      exists i :: 0 <= i < |lines| && !AllSpace(lines[i]) && Strip(lines[i]) == r.error && ParseDate(r.error).None?
  {
    ClassifyAll(lines);
    Calendar(Classify(lines))
  }

  /** Every entry of `Classify` is its line classified. */
  lemma ClassifyAll(lines: seq<string>)
    ensures forall i :: 0 <= i < |lines| ==> Classify(lines)[i] == ClassifyLine(lines[i])
  {
    forall i | 0 <= i < |lines| {
      ClassifyAt(lines, i);
    }
  }

  lemma {:induction false} CalendarErrSticks(ps: seq<LineParse>, i: nat)
    requires i <= |ps| && Calendar(ps[..i]).Err?
    ensures Calendar(ps) == Calendar(ps[..i])
    decreases |ps| - i
  {
    if i < |ps| {
      assert ps[..i + 1][..i] == ps[..i];
      CalendarErrSticks(ps, i + 1);
    } else {
      assert ps[..i] == ps;
    }
  }

  /** Reading one more classified line. */
  lemma CalendarStep(ps: seq<LineParse>, i: nat, m: map<ContractKey, CalendarDate>)
    requires i < |ps| && Calendar(ps[..i]) == Ok(m)
    ensures Calendar(ps[..i + 1])
      == match ps[i]
         case BlankLine => Ok(m)
         case BadLine(raw) => Err(raw)
         case DateLine(d) => Ok(m[KeyOfDate(d) := d])
  {
    assert ps[..i + 1][..i] == ps[..i];
  }

  /** `parse_expiry_file` over the lines of the file: the lines are
      classified, then the dictionary is filled in place, stopping at the
      first unparsable line. */
  method ParseExpiryFile(lines: seq<string>) returns (r: Result<map<ContractKey, CalendarDate>, string>)
    ensures r == ExpiryCalendar(lines)
  {
    var ps := Classify(lines);
    var expiries: map<ContractKey, CalendarDate> := map[];
    var i := 0;
    while i < |lines|
      invariant 0 <= i <= |lines|
      invariant Calendar(ps[..i]) == Ok(expiries)
    {
      CalendarStep(ps, i, expiries);
      match ps[i] {
        case BlankLine =>
        case BadLine(raw) =>
          CalendarErrSticks(ps, i + 1);
          return Err(raw);
        case DateLine(d) =>
          expiries := expiries[KeyOfDate(d) := d];
      }
      i := i + 1;
    }
    assert ps[..i] == ps;
    return Ok(expiries);
  }

  /** The calendar parses exactly when no line is unparsable. */
  lemma {:induction false} CalendarOk(ps: seq<LineParse>)
    ensures Calendar(ps).Ok? <==> forall i :: 0 <= i < |ps| ==> !ps[i].BadLine?
    decreases |ps|
  {
    if ps != [] {
      var init := ps[..|ps| - 1];
      CalendarOk(init);
      assert forall i :: 0 <= i < |init| ==> init[i] == ps[i];
    }
  }

  /** `parse_expiry_file` succeeds exactly when every line is blank or a
      date in `%d %B %Y` form. */
  lemma ExpiryCalendarOk(lines: seq<string>)
    ensures ExpiryCalendar(lines).Ok?
      <==> forall i :: 0 <= i < |lines| ==> AllSpace(lines[i]) || ParseDate(Strip(lines[i])).Some?
  {
    var ps := Classify(lines);
    CalendarOk(ps);
    forall i | 0 <= i < |lines| ensures ps[i] == ClassifyLine(lines[i]) {
      ClassifyAt(lines, i);
    }
  }

  /** Classified line `p` is a date of contract cycle `k`. */
  predicate DatesCycle(p: LineParse, k: ContractKey) {
    p.DateLine? && KeyOfDate(p.date) == k
  }

  /** Line `i` dates cycle `k` as `d`, and no later line dates `k`. */
  predicate LastDating(ps: seq<LineParse>, i: int, k: ContractKey, d: CalendarDate) {
    0 <= i < |ps| && ps[i] == DateLine(d) && KeyOfDate(d) == k
    && forall j :: i < j < |ps| ==> !DatesCycle(ps[j], k)
  }

  /** What the calendar holds: every date is filed under its own (year,
      month); a cycle is present exactly when some line dates it; and its
      date comes from the last line dating it. */
  lemma {:induction false} CalendarLastWins(ps: seq<LineParse>, m: map<ContractKey, CalendarDate>)
    requires Calendar(ps) == Ok(m)
    ensures forall k :: k in m ==> KeyOfDate(m[k]) == k
    ensures forall k :: k in m <==> (exists i :: 0 <= i < |ps| && DatesCycle(ps[i], k))
    ensures forall k :: k in m ==> exists i :: LastDating(ps, i, k, m[k])
    decreases |ps|
  {
    if ps != [] {
      var n := |ps| - 1;
      var init := ps[..n];
      assert forall i :: 0 <= i < n ==> init[i] == ps[i];
      var m0 := Calendar(init).value;
      CalendarLastWins(init, m0);
      if ps[n].BlankLine? {
        assert m == m0;
        forall k | k in m ensures exists i :: LastDating(ps, i, k, m[k]) {
          var i :| LastDating(init, i, k, m0[k]);
          assert LastDating(ps, i, k, m[k]);
        }
      } else {
        var d := ps[n].date;
        assert m == m0[KeyOfDate(d) := d];
        forall k | k in m ensures exists i :: LastDating(ps, i, k, m[k]) {
          if k == KeyOfDate(d) {
            assert LastDating(ps, n, k, m[k]);
          } else {
            var i :| LastDating(init, i, k, m0[k]);
            assert LastDating(ps, i, k, m[k]);
          }
        }
        forall k | k !in m ensures forall i :: 0 <= i < |ps| ==> !DatesCycle(ps[i], k) {
          assert k !in m0;
        }
      }
    }
  }

  /** Line `i` of the file is the date `d` of cycle `k`, and no later line
      dates `k`. */
  predicate LastDatedLine(lines: seq<string>, i: int, k: ContractKey, d: CalendarDate) {
    0 <= i < |lines| && ClassifyLine(lines[i]) == DateLine(d) && KeyOfDate(d) == k
    && forall j :: i < j < |lines| ==> !DatesCycle(ClassifyLine(lines[j]), k)
  }

  /** Line `i` of the file, classified, is entry `i` of `Classify`. */
  lemma {:induction false} ClassifyAt(lines: seq<string>, i: int)
    requires 0 <= i < |lines|
    ensures Classify(lines)[i] == ClassifyLine(lines[i])
    decreases |lines|
  {
    if i < |lines| - 1 {
      ClassifyAt(lines[..|lines| - 1], i);
    }
  }

  /** The line-level reading of `CalendarLastWins`: every stored expiry is
      filed under its own (year, month), present exactly when some line dates
      that cycle, and taken from the last such line. */
  lemma ExpiryCalendarLastWins(lines: seq<string>, m: map<ContractKey, CalendarDate>)
    requires ExpiryCalendar(lines) == Ok(m)
    ensures forall k :: k in m ==> KeyOfDate(m[k]) == k
    ensures forall k :: k in m <==> (exists i :: 0 <= i < |lines| && DatesCycle(ClassifyLine(lines[i]), k))
    ensures forall k :: k in m ==> exists i :: LastDatedLine(lines, i, k, m[k])
  {
    var ps := Classify(lines);
    CalendarLastWins(ps, m);
    forall k ensures k in m <==> (exists i :: 0 <= i < |lines| && DatesCycle(ClassifyLine(lines[i]), k)) {
      if k in m {
        var i :| 0 <= i < |ps| && DatesCycle(ps[i], k);
        ClassifyAt(lines, i);
      } else {
        forall i | 0 <= i < |lines| ensures !DatesCycle(ClassifyLine(lines[i]), k) {
          ClassifyAt(lines, i);
        }
      }
    }
    forall k | k in m ensures exists i :: LastDatedLine(lines, i, k, m[k]) {
      var i :| LastDating(ps, i, k, m[k]);
      LastDatingLine(lines, i, k, m[k]);
    }
  }

  lemma LastDatingLine(lines: seq<string>, i: int, k: ContractKey, d: CalendarDate)
    requires LastDating(Classify(lines), i, k, d)
    ensures LastDatedLine(lines, i, k, d)
  {
    ClassifyAt(lines, i);
    forall j | i < j < |lines| ensures !DatesCycle(ClassifyLine(lines[j]), k) {
      ClassifyAt(lines, j);
    }
  }
}
