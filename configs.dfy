/** The constant tables of `_configs.py`: the selection target time, the
    futures month-code table and its inverse, and the two contract-symbol
    patterns `CONTRACT_RE` and `FILENAME_RE` written out as a small
    grammar. */
module Configs {
  import opened Wrappers
  import opened Text

  /** `TARGET_TIME_CT`: 14:55 in the reference time zone. */
  const TargetHour: nat := 14
  const TargetMinute: nat := 55
  const SecondsPerDay: nat := 86400

  /** Timestamps are whole seconds of reference-zone wall-clock time counted
      so that trading day `d` (a date ordinal) starts at `d * SecondsPerDay`.
      `TargetTs(d)` is `target_ts`: 14:55 on day `d`. */
  function TargetTs(tradingDay: int): (t: int)
    ensures tradingDay * SecondsPerDay <= t < (tradingDay + 1) * SecondsPerDay
  {
    tradingDay * SecondsPerDay + TargetHour * 3600 + TargetMinute * 60
  }

  /** `FUT_MONTHS`: the futures month letters for January to December. */
  const FutMonths: seq<char> := ['F', 'G', 'H', 'J', 'K', 'M', 'N', 'Q', 'U', 'V', 'X', 'Z']

  /** The position of `c` in `FutMonths`, as `enumerate` numbers it. */
  function IndexOf(c: char, k: nat): (i: nat)
    requires k <= |FutMonths| && c in FutMonths[k..]
    ensures k <= i < |FutMonths| && FutMonths[i] == c
    ensures forall j :: k <= j < i ==> FutMonths[j] != c
    decreases |FutMonths| - k
  {
    if FutMonths[k] == c then k else IndexOf(c, k + 1)
  }

  /** `CODE_TO_MONTH`: each letter mapped to one plus its index. */
  const CodeToMonth: map<char, int> := map c | c in FutMonths :: IndexOf(c, 0) + 1

  predicate IsMonthCode(c: char) {
    c in FutMonths
  }

  /** The month letter of month `m`, the inverse of `CodeToMonth`. */
  function MonthCode(m: int): (c: char)
    requires 1 <= m <= 12
    ensures IsMonthCode(c) && c in CodeToMonth && CodeToMonth[c] == m
  {
    FutMonthsDistinct();
    FutMonths[m - 1]
  }

  /** The month letters are in strictly increasing alphabetical order, so
      they are pairwise distinct. */
  lemma FutMonthsIncreasing()
    ensures |FutMonths| == 12
    ensures forall i, j :: 0 <= i < j < |FutMonths| ==> FutMonths[i] < FutMonths[j]
  {
    forall i | 0 <= i < 11 ensures FutMonths[i] < FutMonths[i + 1] {
    }
    forall i, j | 0 <= i < j < |FutMonths| ensures FutMonths[i] < FutMonths[j] {
      IncreasingFrom(i, j);
    }
  }

  lemma {:induction false} IncreasingFrom(i: nat, j: nat)
    requires i < j < |FutMonths|
    requires forall k :: 0 <= k < |FutMonths| - 1 ==> FutMonths[k] < FutMonths[k + 1]
    ensures FutMonths[i] < FutMonths[j]
    decreases j - i
  {
    if i + 1 < j {
      IncreasingFrom(i + 1, j);
    }
  }

  lemma FutMonthsDistinct()
    ensures |FutMonths| == 12
    ensures forall i, j :: 0 <= i < j < |FutMonths| ==> FutMonths[i] != FutMonths[j]
    ensures forall i :: 0 <= i < |FutMonths| ==> FutMonths[i] in CodeToMonth && CodeToMonth[FutMonths[i]] == i + 1
  {
    FutMonthsIncreasing();
    forall i | 0 <= i < |FutMonths|
      ensures FutMonths[i] in CodeToMonth && CodeToMonth[FutMonths[i]] == i + 1
    {
      assert FutMonths[i] in FutMonths[0..];
      var k := IndexOf(FutMonths[i], 0);
      assert k == i;
    }
  }

  /** `CODE_TO_MONTH` is a bijection from the twelve letters onto 1..12
      that follows the order of `FUT_MONTHS`. */
  lemma CodeToMonthBijection()
    ensures CodeToMonth.Keys == set c | c in FutMonths
    ensures forall v :: v in CodeToMonth.Values <==> 1 <= v <= 12
    ensures forall c, d :: c in CodeToMonth && d in CodeToMonth && c != d ==> CodeToMonth[c] != CodeToMonth[d]
    ensures forall i, j :: 0 <= i < j < |FutMonths| ==> CodeToMonth[FutMonths[i]] < CodeToMonth[FutMonths[j]]
  {
    FutMonthsDistinct();
    forall m | 1 <= m <= 12 ensures m in CodeToMonth.Values {
      assert CodeToMonth[FutMonths[m - 1]] == m;
    }
    forall v | v in CodeToMonth.Values ensures 1 <= v <= 12 {
      var c :| c in CodeToMonth && CodeToMonth[c] == v;
      var i :| 0 <= i < |FutMonths| && FutMonths[i] == c;
      assert CodeToMonth[FutMonths[i]] == i + 1;
    }
  }

  /** The body shared by `CONTRACT_RE` and `FILENAME_RE` at position `i`:
      `VI`, a month letter, two digits, all matched ignoring ASCII case (so the
      upper- and lower-case letter classes of the two patterns agree). */
  predicate ContractPatternAt(s: string, i: nat) {
    i + 5 <= |s|
      && UpperChar(s[i]) == 'V' && UpperChar(s[i + 1]) == 'I'
      && IsMonthCode(UpperChar(s[i + 2]))
      && IsDigit(s[i + 3]) && IsDigit(s[i + 4])
  }

  /** `CONTRACT_RE.search(s)`: the pattern is anchored by `$` only, which
      matches at the very end of `s` or just before a final newline; the
      result is the start of the match. */
  function ContractReSearch(s: string): (r: Option<nat>)
    ensures r.Some? ==> ContractPatternAt(s, r.value)
    ensures r.Some? ==> r.value + 5 == |s| || (r.value + 6 == |s| && s[|s| - 1] == '\n')
    ensures r.None? ==> !(|s| >= 5 && ContractPatternAt(s, |s| - 5))
    ensures r.None? ==> !(|s| >= 6 && s[|s| - 1] == '\n' && ContractPatternAt(s, |s| - 6))
  {
    if |s| >= 5 && ContractPatternAt(s, |s| - 5) then Some(|s| - 5)
    else if |s| >= 6 && s[|s| - 1] == '\n' && ContractPatternAt(s, |s| - 6) then Some(|s| - 6)
    else None
  }

  /** `FILENAME_RE.search(s)` from position `from`: the leftmost match. */
  function FilenameReSearch(s: string, from: nat): (r: Option<nat>)
    ensures r.Some? ==> from <= r.value && ContractPatternAt(s, r.value)
    ensures r.Some? ==> forall j :: from <= j < r.value ==> !ContractPatternAt(s, j)
    ensures r.None? ==> forall j :: from <= j ==> !ContractPatternAt(s, j)
    decreases |s| - from
  {
    if from + 5 > |s| then None
    else if ContractPatternAt(s, from) then Some(from)
    else FilenameReSearch(s, from + 1)
  }
}
