/** `weights.py`: the constant-maturity weighter.  For every requested tenor
    `T` (in days) each trading day gets a bracket `(d1, d2)` of listed
    maturities around `T`, the first contract at each end of the bracket, and a
    linear-interpolation weight per row; the weights are joined back onto the
    working table as a new column `weight_{T}d`. */
module Weights {
  import opened Wrappers
  import opened Text
  import opened Utilis
  import opened Frames

  /** The join key of the working table: `(tradingDay, symbol, ttm_days)`. */
  datatype Key = Key(day: int, symbol: string, ttm: int)

  datatype WeightError =
    | MissingColumns(missing: seq<string>)
    | ColumnType(name: string)
    | OutOfRange
    | DuplicateColumn(name: string)

  const DayName: string := "tradingDay"
  const SymbolName: string := "symbol"
  const TtmName: string := "ttm_days"
  const KeyNames: seq<string> := [DayName, SymbolName, TtmName]

  predicate HasKeyColumns(f: Frame) {
    WellFormed(f) && DayName in f.names && SymbolName in f.names && TtmName in f.names
  }

  /** `term_df.select(["tradingDay", "symbol", "ttm_days"])`, one key per row.
      The maturities are compared with the real tenor, so a non-integer
      `ttm_days` column fails; tradingDay and symbol must have the types the
      term-structure stage gives them. */
  function KeysOf(f: Frame): (r: Result<seq<Key>, WeightError>)
    requires HasKeyColumns(f)
    ensures r.Ok? <==> Col(f, DayName).IntCol? && Col(f, SymbolName).TextCol? && Col(f, TtmName).IntCol?
    ensures r.Ok? ==> |r.value| == f.height
    ensures r.Ok? ==> forall i :: 0 <= i < |r.value| ==>
      r.value[i] == Key(Col(f, DayName).ints[i], Col(f, SymbolName).texts[i], Col(f, TtmName).ints[i])
    ensures r.Err? ==> r.error.ColumnType? && r.error.name in KeyNames
  {
    var d := Col(f, DayName);
    var s := Col(f, SymbolName);
    var m := Col(f, TtmName);
    if !m.IntCol? then Err(ColumnType(TtmName))
    else if !d.IntCol? then Err(ColumnType(DayName))
    else if !s.TextCol? then Err(ColumnType(SymbolName))
    else Ok(seq(f.height, i requires 0 <= i < f.height => Key(d.ints[i], s.texts[i], m.ints[i])))
  }

  // ---------------------------------------------------------------------
  // Brackets
  // ---------------------------------------------------------------------

  /** Some row of `day` has maturity `m`. */
  predicate HasTtm(keys: seq<Key>, day: int, m: int) {
    exists i :: 0 <= i < |keys| && keys[i].day == day && keys[i].ttm == m
  }

  /** Some row is on `day`. */
  predicate HasDay(keys: seq<Key>, day: int) {
    exists i :: 0 <= i < |keys| && keys[i].day == day
  }

  /** `m` passes the filter `ttm_days <= bound`; no bound lets every row pass. */
  predicate AtMost(m: int, bound: Option<real>) {
    bound.None? || m as real <= bound.value
  }

  predicate AtLeast(m: int, bound: Option<real>) {
    bound.None? || m as real >= bound.value
  }

  /** `filter(ttm_days <= bound).group_by("tradingDay").agg(ttm_days.max())`
      read at `day`: the largest maturity of the day that passes the filter,
      or `None` (a null after the left join) when no row of the day does. */
  function Largest(keys: seq<Key>, day: int, bound: Option<real>): (r: Option<int>)
    ensures r.Some? ==> AtMost(r.value, bound)
  {
    if keys == [] then None
    else
      var k := keys[|keys| - 1];
      var rest := Largest(keys[..|keys| - 1], day, bound);
      if k.day == day && AtMost(k.ttm, bound) && (rest.None? || rest.value < k.ttm) then Some(k.ttm)
      else rest
  }

  /** `Largest` is a maturity listed on the day, at least every listed
      maturity that passes the filter, and missing only when none passes. */
  lemma {:induction false} LargestSpec(keys: seq<Key>, day: int, bound: Option<real>)
    ensures var r := Largest(keys, day, bound);
      (r.Some? ==> HasTtm(keys, day, r.value))
      && forall i :: 0 <= i < |keys| && keys[i].day == day && AtMost(keys[i].ttm, bound) ==>
           r.Some? && keys[i].ttm <= r.value
    decreases |keys|
  {
    if keys != [] {
      var init := keys[..|keys| - 1];
      LargestSpec(init, day, bound);
      assert forall i :: 0 <= i < |init| ==> init[i] == keys[i];
      assert keys[|keys| - 1] == keys[|init|];
    }
  }

  /** The dual of `Largest`: the smallest maturity of the day at or above the
      bound. */
  function Smallest(keys: seq<Key>, day: int, bound: Option<real>): (r: Option<int>)
    ensures r.Some? ==> AtLeast(r.value, bound)
  {
    if keys == [] then None
    else
      var k := keys[|keys| - 1];
      var rest := Smallest(keys[..|keys| - 1], day, bound);
      if k.day == day && AtLeast(k.ttm, bound) && (rest.None? || k.ttm < rest.value) then Some(k.ttm)
      else rest
  }

  lemma {:induction false} SmallestSpec(keys: seq<Key>, day: int, bound: Option<real>)
    ensures var r := Smallest(keys, day, bound);
      (r.Some? ==> HasTtm(keys, day, r.value))
      && forall i :: 0 <= i < |keys| && keys[i].day == day && AtLeast(keys[i].ttm, bound) ==>
           r.Some? && r.value <= keys[i].ttm
    decreases |keys|
  {
    if keys != [] {
      var init := keys[..|keys| - 1];
      SmallestSpec(init, day, bound);
      assert forall i :: 0 <= i < |init| ==> init[i] == keys[i];
      assert keys[|keys| - 1] == keys[|init|];
    }
  }

  /** The bracket `(d1, d2)` of tenor `t` on `day`.  `d1` is the largest
      maturity at most `t` and `d2` the smallest at least `t`.  Without
      clamping a day that lacks either has no bracket; with clamping a missing
      `d1` becomes the day's smallest maturity and a missing `d2` its largest. */
  function Bracket(clamp: bool, keys: seq<Key>, day: int, t: real): (r: Option<(int, int)>)
    ensures r.Some? && Largest(keys, day, Some(t)).Some? ==> r.value.0 as real <= t
    ensures r.Some? && Smallest(keys, day, Some(t)).Some? ==> t <= r.value.1 as real
  {
    var lo := Largest(keys, day, Some(t));
    var hi := Smallest(keys, day, Some(t));
    if lo.Some? && hi.Some? then Some((lo.value, hi.value))
    else if !clamp then None
    else
      match (Smallest(keys, day, None), Largest(keys, day, None))
      case (Some(minD), Some(maxD)) =>
        Some((if lo.Some? then lo.value else minD, if hi.Some? then hi.value else maxD))
      case _ => None
  }

  /** Both ends of a bracket are maturities listed on the day. */
  lemma BracketListed(clamp: bool, keys: seq<Key>, day: int, t: real)
    requires Bracket(clamp, keys, day, t).Some?
    ensures HasTtm(keys, day, Bracket(clamp, keys, day, t).value.0)
    ensures HasTtm(keys, day, Bracket(clamp, keys, day, t).value.1)
  {
    LargestSpec(keys, day, Some(t));
    SmallestSpec(keys, day, Some(t));
    LargestSpec(keys, day, None);
    SmallestSpec(keys, day, None);
  }

  /** Both ends found by the filters: `d1 <= t <= d2`, with nothing listed
      strictly between `d1` and `t` or between `t` and `d2`. */
  lemma BracketInside(clamp: bool, keys: seq<Key>, day: int, t: real)
    requires Largest(keys, day, Some(t)).Some? && Smallest(keys, day, Some(t)).Some?
    ensures Bracket(clamp, keys, day, t).Some?
    ensures var (d1, d2) := Bracket(clamp, keys, day, t).value;
      d1 as real <= t <= d2 as real
      && d1 == Largest(keys, day, Some(t)).value && d2 == Smallest(keys, day, Some(t)).value
      && forall i :: 0 <= i < |keys| && keys[i].day == day ==>
           keys[i].ttm as real <= t ==> keys[i].ttm <= d1
    ensures var (d1, d2) := Bracket(clamp, keys, day, t).value;
      forall i :: 0 <= i < |keys| && keys[i].day == day ==>
           keys[i].ttm as real >= t ==> d2 <= keys[i].ttm
  {
    LargestSpec(keys, day, Some(t));
    SmallestSpec(keys, day, Some(t));
  }

  /** With clamping every day that has a row has a bracket; a day whose
      tenor lies beyond its listed maturities collapses to one maturity:
      to the smallest when nothing is at most `t`, to the largest when nothing
      is at least `t`. */
  lemma ClampCollapses(keys: seq<Key>, day: int, t: real)
    requires HasDay(keys, day)
    requires Largest(keys, day, Some(t)).None? || Smallest(keys, day, Some(t)).None?
    ensures Bracket(true, keys, day, t).Some?
    ensures var (d1, d2) := Bracket(true, keys, day, t).value;
      d1 == d2
      && (Largest(keys, day, Some(t)).None? ==> d1 == Smallest(keys, day, None).value)
      && (Smallest(keys, day, Some(t)).None? ==> d2 == Largest(keys, day, None).value)
  {
    LargestSpec(keys, day, Some(t));
    SmallestSpec(keys, day, Some(t));
    LargestSpec(keys, day, None);
    SmallestSpec(keys, day, None);
    var i :| 0 <= i < |keys| && keys[i].day == day;
    var lo := Largest(keys, day, Some(t));
    var hi := Smallest(keys, day, Some(t));
    var minD := Smallest(keys, day, None);
    var maxD := Largest(keys, day, None);
    assert minD.Some? && maxD.Some?;
    if lo.None? {
      // every maturity of the day is above t, so the upper filter keeps them
      // all and its minimum is the day's minimum
      assert keys[i].ttm as real >= t;
      assert hi.Some?;
      var j :| 0 <= j < |keys| && keys[j].day == day && keys[j].ttm == minD.value;
      assert keys[j].ttm as real >= t;
      var h :| 0 <= h < |keys| && keys[h].day == day && keys[h].ttm == hi.value;
      assert hi.value == minD.value;
    } else {
      assert keys[i].ttm as real <= t;
      var j :| 0 <= j < |keys| && keys[j].day == day && keys[j].ttm == maxD.value;
      assert keys[j].ttm as real <= t;
      var h :| 0 <= h < |keys| && keys[h].day == day && keys[h].ttm == lo.value;
      assert lo.value == maxD.value;
    }
  }

  /** A bracket with two distinct ends was found by both filters (a clamped
      end would have collapsed it), so `d1 <= t <= d2` and `d1 < d2`. */
  lemma BracketOrdered(clamp: bool, keys: seq<Key>, day: int, t: real)
    requires Bracket(clamp, keys, day, t).Some?
    requires Bracket(clamp, keys, day, t).value.0 != Bracket(clamp, keys, day, t).value.1
    ensures Largest(keys, day, Some(t)).Some? && Smallest(keys, day, Some(t)).Some?
    ensures var (d1, d2) := Bracket(clamp, keys, day, t).value;
      d1 as real <= t <= d2 as real && d1 < d2
  {
    var lo := Largest(keys, day, Some(t));
    var hi := Smallest(keys, day, Some(t));
    if lo.None? || hi.None? {
      BracketListed(clamp, keys, day, t);
      var (d1, _) := Bracket(clamp, keys, day, t).value;
      var i :| 0 <= i < |keys| && keys[i].day == day && keys[i].ttm == d1;
      ClampCollapses(keys, day, t);
    }
  }

  // ---------------------------------------------------------------------
  // The first symbol at each end of the bracket
  // ---------------------------------------------------------------------

  /** `sym1` / `sym2`: after sorting by (tradingDay, ttm_days, symbol), the
      first symbol among the rows of `day` with maturity `d`, that is the
      smallest such symbol in string order. */
  function FirstSymbol(keys: seq<Key>, day: int, d: int): (r: Option<string>)
    ensures r.Some? ==> exists i :: 0 <= i < |keys| && keys[i] == Key(day, r.value, d)
    decreases |keys|
  {
    if keys == [] then None
    else
      var k := keys[|keys| - 1];
      var rest := FirstSymbol(keys[..|keys| - 1], day, d);
      if k.day == day && k.ttm == d && (rest.None? || StrLess(k.symbol, rest.value)) then Some(k.symbol)
      else rest
  }

  /** `FirstSymbol` exists exactly when the day lists maturity `d`; it is the
      symbol of such a row and no such row's symbol sorts before it. */
  lemma {:induction false} FirstSymbolSpec(keys: seq<Key>, day: int, d: int)
    ensures var r := FirstSymbol(keys, day, d);
      (r.Some? <==> HasTtm(keys, day, d))
      && (r.Some? ==> exists i :: 0 <= i < |keys| && keys[i] == Key(day, r.value, d))
      && forall i :: 0 <= i < |keys| && keys[i].day == day && keys[i].ttm == d ==>
           r.Some? && !StrLess(keys[i].symbol, r.value)
    decreases |keys|
  {
    if keys != [] {
      var init := keys[..|keys| - 1];
      var k := keys[|keys| - 1];
      var rest := FirstSymbol(init, day, d);
      FirstSymbolSpec(init, day, d);
      assert forall i :: 0 <= i < |init| ==> init[i] == keys[i];
      assert keys[|keys| - 1] == keys[|init|];
      if k.day == day && k.ttm == d && (rest.None? || StrLess(k.symbol, rest.value)) {
        FirstSymbolStep(init, day, d, rest, k.symbol);
        StrLessIrreflexive(k.symbol);
        assert keys[|init|] == Key(day, k.symbol, d);
      }
    }
  }

  /** A symbol before the least symbol of a group is before all of them. */
  lemma FirstSymbolStep(init: seq<Key>, day: int, d: int, rest: Option<string>, s: string)
    requires forall i :: 0 <= i < |init| && init[i].day == day && init[i].ttm == d ==>
      rest.Some? && !StrLess(init[i].symbol, rest.value)
    requires rest.None? || StrLess(s, rest.value)
    ensures forall i :: 0 <= i < |init| && init[i].day == day && init[i].ttm == d ==>
      !StrLess(init[i].symbol, s)
  {
    forall i | 0 <= i < |init| && init[i].day == day && init[i].ttm == d
      ensures !StrLess(init[i].symbol, s)
    {
      if StrLess(init[i].symbol, s) {
        StrLessTransitive(init[i].symbol, s, rest.value);
      }
    }
  }

  // ---------------------------------------------------------------------
  // Weights
  // ---------------------------------------------------------------------

  /** The weight expression of one row with symbol `sym` on a day with bracket
      `(d1, d2)` and first symbols `s1`, `s2` (a symbol never equals a null). */
  function WeightOf(d1: int, d2: int, s1: Option<string>, s2: Option<string>, t: real, sym: string): (w: real)
    ensures s1 != Some(sym) && s2 != Some(sym) ==> w == 0.0
    ensures d1 == d2 || (d1 < d2 && d1 as real <= t <= d2 as real) ==> 0.0 <= w <= 1.0
  {
    if d1 == d2 then (if s1 == Some(sym) then 1.0 else 0.0)
    else if s1 == Some(sym) then (d2 as real - t) / (d2 - d1) as real
    else if s2 == Some(sym) then (t - d1 as real) / (d2 - d1) as real
    else 0.0
  }

  /** The weight of the row with key `k`, from the bracket of its day. */
  function RowWeight(clamp: bool, keys: seq<Key>, t: real, k: Key): real
    requires Bracket(clamp, keys, k.day, t).Some?
  {
    var (d1, d2) := Bracket(clamp, keys, k.day, t).value;
    WeightOf(d1, d2, FirstSymbol(keys, k.day, d1), FirstSymbol(keys, k.day, d2), t, k.symbol)
  }

  /** The day of every one of the first `n` rows has a bracket. */
  predicate Bracketed(clamp: bool, keys: seq<Key>, t: real, n: nat)
    requires n <= |keys|
  {
    n == 0 || (Bracketed(clamp, keys, t, n - 1) && Bracket(clamp, keys, keys[n - 1].day, t).Some?)
  }

  lemma {:induction false} BracketedAt(clamp: bool, keys: seq<Key>, t: real, n: nat, i: nat)
    requires n <= |keys| && Bracketed(clamp, keys, t, n) && i < n
    ensures Bracket(clamp, keys, keys[i].day, t).Some?
  {
    if i < n - 1 {
      BracketedAt(clamp, keys, t, n - 1, i);
    }
  }

  /** The day of row `i` lacks `d1` or `d2`. */
  predicate RowOutside(keys: seq<Key>, t: real, i: nat)
    requires i < |keys|
  {
    Largest(keys, keys[i].day, Some(t)).None? || Smallest(keys, keys[i].day, Some(t)).None?
  }

  /** The day of one of the first `n` rows lacks `d1` or `d2`. */
  predicate SomeDayOutside(keys: seq<Key>, t: real, n: nat)
    requires n <= |keys|
  {
    n > 0 && (SomeDayOutside(keys, t, n - 1) || RowOutside(keys, t, n - 1))
  }

  lemma {:induction false} SomeDayOutsideIff(keys: seq<Key>, t: real, n: nat)
    requires n <= |keys|
    ensures SomeDayOutside(keys, t, n) <==> exists i :: 0 <= i < n && RowOutside(keys, t, i)
  {
    if n > 0 {
      SomeDayOutsideIff(keys, t, n - 1);
    }
  }

  /** With clamping every row's day has a bracket. */
  lemma {:induction false} ClampBracketed(keys: seq<Key>, t: real, n: nat)
    requires n <= |keys|
    ensures Bracketed(true, keys, t, n)
  {
    if n > 0 {
      ClampBracketed(keys, t, n - 1);
      var day := keys[n - 1].day;
      if RowOutside(keys, t, n - 1) {
        ClampCollapses(keys, day, t);
      }
    }
  }

  /** Without clamping, every row's day has a bracket exactly when no row's
      day lacks an end. */
  lemma {:induction false} OutsideIff(keys: seq<Key>, t: real, n: nat)
    requires n <= |keys|
    ensures Bracketed(false, keys, t, n) <==> !SomeDayOutside(keys, t, n)
  {
    if n > 0 {
      OutsideIff(keys, t, n - 1);
    }
  }

  /** The weights of the first `n` rows. */
  function RowWeights(clamp: bool, keys: seq<Key>, t: real, n: nat): (ws: seq<real>)
    requires n <= |keys| && Bracketed(clamp, keys, t, n)
    ensures |ws| == n
  {
    if n == 0 then [] else RowWeights(clamp, keys, t, n - 1) + [RowWeight(clamp, keys, t, keys[n - 1])]
  }

  lemma {:induction false} RowWeightsAt(clamp: bool, keys: seq<Key>, t: real, n: nat, i: nat)
    requires n <= |keys| && Bracketed(clamp, keys, t, n) && i < n
    ensures Bracket(clamp, keys, keys[i].day, t).Some?
    ensures RowWeights(clamp, keys, t, n)[i] == RowWeight(clamp, keys, t, keys[i])
  {
    if i < n - 1 {
      RowWeightsAt(clamp, keys, t, n - 1, i);
    }
  }

  /** `_weights_for_tenor`: one weight per row, or the out-of-range error of
      an unclamped weighter when some day lacks an end of its bracket. */
  function TenorWeights(clamp: bool, keys: seq<Key>, t: real): (r: Result<seq<real>, WeightError>)
    ensures r.Err? <==> !clamp && SomeDayOutside(keys, t, |keys|)
    ensures r.Err? ==> r.error == OutOfRange
    ensures r.Ok? ==> |r.value| == |keys|
  {
    if !clamp && SomeDayOutside(keys, t, |keys|) then Err(OutOfRange)
    else
      ClampBracketed(keys, t, |keys|);
      OutsideIff(keys, t, |keys|);
      Ok(RowWeights(clamp, keys, t, |keys|))
  }

  /** The weight of row `i` is the weight of its key on its day. */
  lemma TenorWeightsRow(clamp: bool, keys: seq<Key>, t: real, i: nat)
    requires TenorWeights(clamp, keys, t).Ok? && i < |keys|
    ensures Bracket(clamp, keys, keys[i].day, t).Some?
    ensures TenorWeights(clamp, keys, t).value[i] == RowWeight(clamp, keys, t, keys[i])
  {
    ClampBracketed(keys, t, |keys|);
    OutsideIff(keys, t, |keys|);
    RowWeightsAt(clamp, keys, t, |keys|, i);
  }

  /** The weight of a row, case by case: with a collapsed bracket the first
      contract takes everything; otherwise the two ends share the weight
      linearly and every other row of the day gets nothing.  Either way the
      weight lies in [0, 1]. */
  lemma WeightCases(clamp: bool, keys: seq<Key>, t: real, k: Key)
    requires Bracket(clamp, keys, k.day, t).Some?
    ensures var (d1, d2) := Bracket(clamp, keys, k.day, t).value;
      var s1 := FirstSymbol(keys, k.day, d1);
      var s2 := FirstSymbol(keys, k.day, d2);
      var w := RowWeight(clamp, keys, t, k);
      s1.Some? && s2.Some?
      && (d1 == d2 ==> w == (if k.symbol == s1.value then 1.0 else 0.0))
      && (d1 != d2 && k.symbol == s1.value ==> w == (d2 as real - t) / (d2 - d1) as real)
      && (d1 != d2 && k.symbol != s1.value && k.symbol == s2.value ==> w == (t - d1 as real) / (d2 - d1) as real)
      && (k.symbol != s1.value && k.symbol != s2.value ==> w == 0.0)
      && 0.0 <= w <= 1.0
  {
    var (d1, d2) := Bracket(clamp, keys, k.day, t).value;
    BracketListed(clamp, keys, k.day, t);
    FirstSymbolSpec(keys, k.day, d1);
    FirstSymbolSpec(keys, k.day, d2);
    if d1 != d2 {
      BracketOrdered(clamp, keys, k.day, t);
      UnitFractions(d1, d2, t);
    }
  }

  /** `(d2 - t) / (d2 - d1)` and `(t - d1) / (d2 - d1)` lie in [0, 1] and add
      up to one. */
  lemma UnitFractions(d1: int, d2: int, t: real)
    requires d1 as real <= t <= d2 as real && d1 < d2
    ensures 0.0 <= (d2 as real - t) / (d2 - d1) as real <= 1.0
    ensures 0.0 <= (t - d1 as real) / (d2 - d1) as real <= 1.0
    ensures (d2 as real - t) / (d2 - d1) as real + (t - d1 as real) / (d2 - d1) as real == 1.0
  {
    var w := (d2 - d1) as real;
    var x := (d2 as real - t) / w;
    var y := (t - d1 as real) / w;
    assert x * w == d2 as real - t;
    assert y * w == t - d1 as real;
    assert (x + y) * w == x * w + y * w;
    assert (x + y - 1.0) * w == 0.0;
  }

  // ---------------------------------------------------------------------
  // Weights of a day add up to one
  // ---------------------------------------------------------------------

  function Days(keys: seq<Key>): (ds: seq<int>)
    ensures |ds| == |keys| && forall i :: 0 <= i < |keys| ==> ds[i] == keys[i].day
  {
    seq(|keys|, i requires 0 <= i < |keys| => keys[i].day)
  }

  /** No two rows of one day carry the same symbol (what the term-structure
      stage guarantees). */
  predicate UniqueDaySymbols(keys: seq<Key>) {
    forall i, j :: 0 <= i < j < |keys| && keys[i].day == keys[j].day ==> keys[i].symbol != keys[j].symbol
  }

  predicate HasSymbol(keys: seq<Key>, day: int, s: string) {
    exists i :: 0 <= i < |keys| && keys[i].day == day && keys[i].symbol == s
  }

  /** On a day where the weights are `wa` for symbol `a`, `wb` for symbol `b`
      and zero otherwise, the day's total is the weight of each of the two
      symbols that is listed that day. */
  lemma {:induction false} PairSum(keys: seq<Key>, ws: seq<real>, day: int, a: string, wa: real, b: string, wb: real)
    requires |ws| == |keys| && a != b && UniqueDaySymbols(keys)
    requires forall i :: 0 <= i < |keys| && keys[i].day == day ==>
      ws[i] == (if keys[i].symbol == a then wa else if keys[i].symbol == b then wb else 0.0)
    ensures GroupSum(Days(keys), ws, day)
      == (if HasSymbol(keys, day, a) then wa else 0.0) + (if HasSymbol(keys, day, b) then wb else 0.0)
    decreases |keys|
  {
    if keys != [] {
      var n := |keys| - 1;
      var init := keys[..n];
      var k := keys[n];
      assert Days(keys)[..n] == Days(init);
      assert forall i :: 0 <= i < n ==> init[i] == keys[i];
      PairSum(init, ws[..n], day, a, wa, b, wb);
      PairSumLast(keys, day, a);
      PairSumLast(keys, day, b);
    }
  }

  /** Whether symbol `s` is listed on `day` after one more row: the last row
      supplies it exactly when the earlier rows do not. */
  lemma PairSumLast(keys: seq<Key>, day: int, s: string)
    requires keys != [] && UniqueDaySymbols(keys)
    ensures var n := |keys| - 1;
      var last := keys[n].day == day && keys[n].symbol == s;
      (HasSymbol(keys, day, s) <==> HasSymbol(keys[..n], day, s) || last)
      && !(HasSymbol(keys[..n], day, s) && last)
  {
    var n := |keys| - 1;
    if HasSymbol(keys, day, s) {
      var i :| 0 <= i < |keys| && keys[i].day == day && keys[i].symbol == s;
      if i < n {
        assert keys[..n][i] == keys[i];
      }
    }
    if HasSymbol(keys[..n], day, s) {
      var i :| 0 <= i < n && keys[..n][i].day == day && keys[..n][i].symbol == s;
      assert keys[i] == keys[..n][i];
    }
  }

  /** The weights of the rows of one day, read off the day's bracket. */
  lemma DayWeights(clamp: bool, keys: seq<Key>, t: real, i: nat)
    requires i < |keys| && TenorWeights(clamp, keys, t).Ok?
    ensures Bracket(clamp, keys, keys[i].day, t).Some?
    ensures var day := keys[i].day;
      var (d1, d2) := Bracket(clamp, keys, day, t).value;
      forall j :: 0 <= j < |keys| && keys[j].day == day ==>
        TenorWeights(clamp, keys, t).value[j]
          == WeightOf(d1, d2, FirstSymbol(keys, day, d1), FirstSymbol(keys, day, d2), t, keys[j].symbol)
  {
    TenorWeightsRow(clamp, keys, t, i);
    forall j | 0 <= j < |keys| && keys[j].day == keys[i].day
      ensures TenorWeights(clamp, keys, t).value[j] == RowWeight(clamp, keys, t, keys[j])
    {
      TenorWeightsRow(clamp, keys, t, j);
    }
  }

  /** The weights of every day add up to exactly one, provided no symbol is
      listed twice on one day. */
  lemma WeightsSumToOne(clamp: bool, keys: seq<Key>, t: real, i: nat)
    requires i < |keys| && UniqueDaySymbols(keys)
    requires TenorWeights(clamp, keys, t).Ok?
    ensures GroupSum(Days(keys), TenorWeights(clamp, keys, t).value, keys[i].day) == 1.0
  {
    var day := keys[i].day;
    DayWeights(clamp, keys, t, i);
    var (d1, d2) := Bracket(clamp, keys, day, t).value;
    var s1 := FirstSymbol(keys, day, d1);
    var s2 := FirstSymbol(keys, day, d2);
    BracketListed(clamp, keys, day, t);
    FirstSymbolSpec(keys, day, d1);
    FirstSymbolSpec(keys, day, d2);
    assert s1.Some? && s2.Some?;
    var i1 :| 0 <= i1 < |keys| && keys[i1] == Key(day, s1.value, d1);
    var i2 :| 0 <= i2 < |keys| && keys[i2] == Key(day, s2.value, d2);
    if d1 != d2 {
      BracketOrdered(clamp, keys, day, t);
    }
    BracketSum(keys, TenorWeights(clamp, keys, t).value, day, d1, d2, s1, s2, t, i1, i2);
  }

  /** The sum of one day's weights, given the day's bracket, its first
      symbols and a row for each of them. */
  lemma BracketSum(keys: seq<Key>, ws: seq<real>, day: int, d1: int, d2: int,
                   s1: Option<string>, s2: Option<string>, t: real, i1: nat, i2: nat)
    requires |ws| == |keys| && UniqueDaySymbols(keys)
    requires forall j :: 0 <= j < |keys| && keys[j].day == day ==> ws[j] == WeightOf(d1, d2, s1, s2, t, keys[j].symbol)
    requires s1.Some? && s2.Some? && i1 < |keys| && i2 < |keys|
    requires keys[i1] == Key(day, s1.value, d1) && keys[i2] == Key(day, s2.value, d2)
    requires d1 != d2 ==> d1 as real <= t <= d2 as real && d1 < d2
    ensures GroupSum(Days(keys), ws, day) == 1.0
  {
    var a := s1.value;
    assert HasSymbol(keys, day, a) by { assert keys[i1].day == day && keys[i1].symbol == a; }
    if d1 == d2 {
      var b := a + "_";
      assert b != a by { assert |b| != |a|; }
      PairSum(keys, ws, day, a, 1.0, b, 0.0);
    } else {
      var b := s2.value;
      assert HasSymbol(keys, day, b) by { assert keys[i2].day == day && keys[i2].symbol == b; }
      assert a != b by {
        assert i1 != i2;
        if i1 < i2 { assert keys[i1].symbol != keys[i2].symbol; }
        else { assert keys[i2].symbol != keys[i1].symbol; }
      }
      var wa := (d2 as real - t) / (d2 - d1) as real;
      var wb := (t - d1 as real) / (d2 - d1) as real;
      PairSum(keys, ws, day, a, wa, b, wb);
      UnitFractions(d1, d2, t);
    }
  }

  // ---------------------------------------------------------------------
  // Joining a weight column back onto the table
  // ---------------------------------------------------------------------

  /** The weight column's name, `weight_{int(T)}d`. */
  function WeightName(t: int): (n: string)
    ensures StartsWith(n, "weight_")
  {
    "weight_" + IntToString(t) + "d"
  }

  /** Distinct tenors give distinct column names. */
  lemma WeightNameInjective(a: int, b: int)
    requires WeightName(a) == WeightName(b)
    ensures a == b
  {
    var sa := IntToString(a);
    var sb := IntToString(b);
    assert WeightName(a)[7..|WeightName(a)| - 1] == sa;
    assert WeightName(b)[7..|WeightName(b)| - 1] == sb;
    IntToStringInjective(a, b);
  }

  /** The name a left join gives the right-hand weight column: its own name,
      or that name with the suffix `_right` when the left side already has a
      column of that name; when that is taken too the join fails. */
  function JoinedName(names: seq<string>, n: string): (r: Result<string, WeightError>)
    ensures r.Ok? ==> r.value !in names
    ensures r.Ok? ==> r.value == (if n in names then n + "_right" else n)
    ensures r.Err? <==> n in names && n + "_right" in names
  {
    if n !in names then Ok(n)
    else if n + "_right" !in names then Ok(n + "_right")
    else Err(DuplicateColumn(n + "_right"))
  }

  /** How often key `k` occurs. */
  function Count(keys: seq<Key>, k: Key): nat {
    if keys == [] then 0 else Count(keys[..|keys| - 1], k) + (if keys[|keys| - 1] == k then 1 else 0)
  }

  /** With every key listed once, each key occurs exactly once. */
  lemma {:induction false} CountDistinct(keys: seq<Key>, i: nat)
    requires Distinct(keys) && i < |keys|
    ensures Count(keys, keys[i]) == 1
    decreases |keys|
  {
    var n := |keys| - 1;
    assert Distinct(keys[..n]);
    if i < n {
      assert keys[..n][i] == keys[i];
      CountDistinct(keys[..n], i);
    } else {
      CountAbsent(keys[..n], keys[i]);
    }
  }

  lemma {:induction false} CountAbsent(keys: seq<Key>, k: Key)
    requires k !in keys
    ensures Count(keys, k) == 0
    decreases |keys|
  {
    if keys != [] {
      assert keys[|keys| - 1] in keys;
      CountAbsent(keys[..|keys| - 1], k);
    }
  }

  /** The left rows of `out.join(w, on=keys, how="left")` over the first `n`
      rows: each left row once per right row with the same key.  The right
      table `w` has one row per left row, so the match count of row `i` is the
      number of rows sharing its key. */
  function JoinRows(keys: seq<Key>, n: nat): (idx: seq<nat>)
    requires n <= |keys|
    ensures forall j :: 0 <= j < |idx| ==> idx[j] < n
  {
    if n == 0 then []
    else JoinRows(keys, n - 1) + seq(Count(keys, keys[n - 1]), _ => n - 1)
  }

  /** With unique keys the join keeps every left row once, in order. */
  lemma {:induction false} JoinRowsDistinct(keys: seq<Key>, n: nat)
    requires n <= |keys| && Distinct(keys)
    ensures JoinRows(keys, n) == AllRows(n)
  {
    if n > 0 {
      JoinRowsDistinct(keys, n - 1);
      CountDistinct(keys, n - 1);
    }
  }

  /** Every joined row carries the weight of a right row with its key; the
      right rows with one key all hold the same weight, since a weight is a
      function of the key, so that weight is the left row's own. */
  function JoinWeights(f: Frame, keys: seq<Key>, name: string, ws: seq<real>): (g: Frame)
    requires HasKeyColumns(f) && |keys| == f.height && |ws| == f.height && name !in f.names
    ensures HasKeyColumns(g)
    ensures g.names == f.names + [name] && |g.columns| == |f.columns| + 1
  {
    var idx := JoinRows(keys, |keys|);
    var rows := GatherFrame(f, idx);
    assert Distinct(f.names + [name]);
    Frame(f.names + [name], rows.columns + [Gather(RealCol(ws), idx)], |idx|)
  }

  /** The table `_weights_for_tenor` returns: the keys of the working table,
      the column name `weight_{T}d` and one weight per key. */
  datatype WeightTable = WeightTable(keys: seq<Key>, name: string, weights: seq<real>)

  /** `_weights_for_tenor` on a frame: read the keys, compute the weights. */
  function WeightsForTenor(clamp: bool, f: Frame, t: int): (r: Result<WeightTable, WeightError>)
    requires HasKeyColumns(f)
    ensures r.Ok? ==> (KeysOf(f) == Ok(r.value.keys) && r.value.name == WeightName(t)
      && TenorWeights(clamp, r.value.keys, t as real) == Ok(r.value.weights))
    ensures r.Err? <==> KeysOf(f).Err? || TenorWeights(clamp, KeysOf(f).value, t as real).Err?
  {
    match KeysOf(f)
    case Err(e) => Err(e)
    case Ok(keys) =>
      match TenorWeights(clamp, keys, t as real)
      case Err(e) => Err(e)
      case Ok(ws) => Ok(WeightTable(keys, WeightName(t), ws))
  }

  /** `out.join(w, on=keys, how="left")`. */
  function JoinTable(f: Frame, w: WeightTable): (r: Result<Frame, WeightError>)
    requires HasKeyColumns(f) && |w.keys| == f.height && |w.weights| == f.height
    ensures r.Ok? ==> HasKeyColumns(r.value)
    ensures r.Ok? ==> r.value.names == f.names + [if w.name in f.names then w.name + "_right" else w.name]
    ensures r.Ok? ==> |r.value.columns| == |f.columns| + 1
    ensures r.Err? <==> w.name in f.names && w.name + "_right" in f.names
  {
    match JoinedName(f.names, w.name)
    case Err(e) => Err(e)
    case Ok(name) => Ok(JoinWeights(f, w.keys, name, w.weights))
  }

  /** One tenor: compute its weights from the current table's keys and join
      them on as a new column. */
  function AddTenor(clamp: bool, f: Frame, t: int): (r: Result<Frame, WeightError>)
    requires HasKeyColumns(f)
    ensures r.Ok? ==> HasKeyColumns(r.value)
    ensures r.Ok? ==> r.value.names == f.names + [if WeightName(t) in f.names then WeightName(t) + "_right" else WeightName(t)]
    ensures r.Ok? ==> |r.value.columns| == |f.columns| + 1
    ensures r.Err? ==> r.error.ColumnType? || r.error == OutOfRange || r.error.DuplicateColumn?
  {
    match WeightsForTenor(clamp, f, t)
    case Err(e) => Err(e)
    case Ok(w) => JoinTable(f, w)
  }

  /** The joined table: the left rows the join selects, in every old column,
      beside the weights of those rows; the key columns are the selected keys. */
  lemma JoinWeightsColumns(f: Frame, keys: seq<Key>, name: string, ws: seq<real>)
    requires HasKeyColumns(f) && |keys| == f.height && |ws| == f.height && name !in f.names
    requires KeysOf(f) == Ok(keys)
    ensures var g := JoinWeights(f, keys, name, ws);
      var idx := JoinRows(keys, |keys|);
      g.height == |idx|
      && (forall i :: 0 <= i < |f.columns| ==> g.columns[i] == Gather(f.columns[i], idx))
      && g.columns[|f.columns|] == Gather(RealCol(ws), idx)
      && KeysOf(g) == Ok(seq(|idx|, j requires 0 <= j < |idx| => keys[idx[j]]))
  {
    var g := JoinWeights(f, keys, name, ws);
    var idx := JoinRows(keys, |keys|);
    forall n | n in f.names ensures Col(g, n) == Gather(Col(f, n), idx) {
      IndexOfNameAppend(f.names, name, n);
    }
    var d := Col(f, DayName).ints;
    var sy := Col(f, SymbolName).texts;
    var m := Col(f, TtmName).ints;
    var kg := seq(|idx|, j requires 0 <= j < |idx| => keys[idx[j]]);
    assert KeysOf(g).Ok?;
    forall j | 0 <= j < |idx| ensures KeysOf(g).value[j] == kg[j] {
      assert keys[idx[j]] == Key(d[idx[j]], sy[idx[j]], m[idx[j]]);
    }
    assert KeysOf(g).value == kg;
  }

  /** With unique keys, one tenor keeps the table's rows and columns as they
      were, appends exactly the tenor's weights, and leaves the keys alone. */
  lemma JoinWeightsUnique(f: Frame, keys: seq<Key>, name: string, ws: seq<real>)
    requires HasKeyColumns(f) && |keys| == f.height && |ws| == f.height && name !in f.names
    requires KeysOf(f) == Ok(keys) && Distinct(keys)
    ensures var g := JoinWeights(f, keys, name, ws);
      g.height == f.height && KeysOf(g) == Ok(keys) && g.columns == f.columns + [RealCol(ws)]
  {
    var g := JoinWeights(f, keys, name, ws);
    JoinWeightsColumns(f, keys, name, ws);
    JoinRowsDistinct(keys, |keys|);
    forall i | 0 <= i < |f.columns| ensures g.columns[i] == f.columns[i] {
      GatherAllRows(f.columns[i]);
    }
    GatherAllRows(RealCol(ws));
    assert seq(|keys|, j requires 0 <= j < |keys| => keys[AllRows(|keys|)[j]]) == keys;
    assert g.columns == f.columns + [RealCol(ws)];
  }

  lemma AddTenorUnique(clamp: bool, f: Frame, t: int, keys: seq<Key>)
    requires HasKeyColumns(f) && KeysOf(f) == Ok(keys) && Distinct(keys)
    requires AddTenor(clamp, f, t).Ok?
    ensures var g := AddTenor(clamp, f, t).value;
      g.height == f.height && KeysOf(g) == Ok(keys)
      && TenorWeights(clamp, keys, t as real).Ok?
      && g.columns == f.columns + [RealCol(TenorWeights(clamp, keys, t as real).value)]
  {
    var ws := TenorWeights(clamp, keys, t as real).value;
    var name := JoinedName(f.names, WeightName(t)).value;
    assert AddTenor(clamp, f, t) == Ok(JoinWeights(f, keys, name, ws));
    JoinWeightsUnique(f, keys, name, ws);
  }

  /** The tenors in order, each on the table the previous ones produced. */
  function AddTenors(clamp: bool, f: Frame, tenors: seq<int>): (r: Result<Frame, WeightError>)
    requires HasKeyColumns(f)
    ensures r.Ok? ==> HasKeyColumns(r.value)
    ensures r.Ok? ==> |r.value.names| == |f.names| + |tenors| && r.value.names[..|f.names|] == f.names
    ensures r.Ok? ==> |r.value.columns| == |f.columns| + |tenors|
    ensures r.Err? ==> !r.error.MissingColumns?
  {
    if tenors == [] then Ok(f)
    else
      match AddTenors(clamp, f, tenors[..|tenors| - 1])
      case Err(e) => Err(e)
      case Ok(g) =>
        PrefixSnoc(g.names, |f.names|);
        AddTenor(clamp, g, tenors[|tenors| - 1])
  }

  lemma PrefixSnoc(a: seq<string>, k: nat)
    requires k <= |a|
    ensures forall x :: (a + [x])[..k] == a[..k]
  {
  }

  /** Once a tenor fails, the whole run fails with that error. */
  lemma {:induction false} AddTenorsErrSticks(clamp: bool, f: Frame, tenors: seq<int>, i: nat)
    requires HasKeyColumns(f) && i <= |tenors|
    requires AddTenors(clamp, f, tenors[..i]).Err?
    ensures AddTenors(clamp, f, tenors) == AddTenors(clamp, f, tenors[..i])
    decreases |tenors| - i
  {
    if i < |tenors| {
      assert tenors[..i + 1][..i] == tenors[..i];
      AddTenorsErrSticks(clamp, f, tenors, i + 1);
    } else {
      assert tenors[..i] == tenors;
    }
  }

  /** The weight columns of a list of tenors on a table with keys `keys`,
      or `None` when one of the tenors has no weights. */
  function TenorColumns(clamp: bool, keys: seq<Key>, tenors: seq<int>): (cs: Option<seq<Column>>)
    ensures cs.Some? ==> |cs.value| == |tenors|
  {
    if tenors == [] then Some([])
    else
      match (TenorColumns(clamp, keys, tenors[..|tenors| - 1]), TenorWeights(clamp, keys, tenors[|tenors| - 1] as real))
      case (Some(cs), Ok(ws)) => Some(cs + [RealCol(ws)])
      case _ => None
  }

  /** Column `j` of `TenorColumns` holds the weights of tenor `j`. */
  lemma {:induction false} TenorColumnsAt(clamp: bool, keys: seq<Key>, tenors: seq<int>, j: nat)
    requires TenorColumns(clamp, keys, tenors).Some? && j < |tenors|
    ensures TenorWeights(clamp, keys, tenors[j] as real).Ok?
    ensures TenorColumns(clamp, keys, tenors).value[j] == RealCol(TenorWeights(clamp, keys, tenors[j] as real).value)
    decreases |tenors|
  {
    var n := |tenors| - 1;
    if j < n {
      assert tenors[..n][j] == tenors[j];
      TenorColumnsAt(clamp, keys, tenors[..n], j);
    }
  }

  /** The columns of one more tenor extend by that tenor's weights. */
  lemma TenorColumnsLast(clamp: bool, keys: seq<Key>, tenors: seq<int>, cs: seq<Column>, ws: seq<real>)
    requires tenors != [] && TenorColumns(clamp, keys, tenors[..|tenors| - 1]) == Some(cs)
    requires TenorWeights(clamp, keys, tenors[|tenors| - 1] as real) == Ok(ws)
    ensures TenorColumns(clamp, keys, tenors) == Some(cs + [RealCol(ws)])
  {
  }

  lemma AppendAssoc(base: seq<Column>, cs: seq<Column>, c: Column)
    ensures base + (cs + [c]) == (base + cs) + [c]
  {
  }

  /** With unique keys, `add_weights` keeps the table's rows and columns and
      appends one column per tenor holding exactly the weights of that tenor
      computed from the ORIGINAL keys: no tenor sees another tenor's column. */
  lemma {:induction false} AddTenorsUnique(clamp: bool, f: Frame, tenors: seq<int>, keys: seq<Key>)
    requires HasKeyColumns(f) && KeysOf(f) == Ok(keys) && Distinct(keys)
    requires AddTenors(clamp, f, tenors).Ok?
    ensures var g := AddTenors(clamp, f, tenors).value;
      g.height == f.height && KeysOf(g) == Ok(keys)
      && TenorColumns(clamp, keys, tenors).Some?
      && g.columns == f.columns + TenorColumns(clamp, keys, tenors).value
    decreases |tenors|
  {
    if tenors != [] {
      var n := |tenors| - 1;
      var prev := AddTenors(clamp, f, tenors[..n]).value;
      AddTenorsUnique(clamp, f, tenors[..n], keys);
      AddTenorsLast(clamp, f, tenors, prev);
      AddTenorUnique(clamp, prev, tenors[n], keys);
      var cs := TenorColumns(clamp, keys, tenors[..n]).value;
      var ws := TenorWeights(clamp, keys, tenors[n] as real).value;
      TenorColumnsLast(clamp, keys, tenors, cs, ws);
      AppendAssoc(f.columns, cs, RealCol(ws));
    }
  }

  /** `[g(x) for x in s]`, built from the back. */
  function MapSeq<A, B>(g: A -> B, s: seq<A>): (r: seq<B>)
    ensures |r| == |s|
  {
    if s == [] then [] else MapSeq(g, s[..|s| - 1]) + [g(s[|s| - 1])]
  }

  lemma {:induction false} MapSeqAt<A, B>(g: A -> B, s: seq<A>, j: nat)
    requires j < |s|
    ensures MapSeq(g, s)[j] == g(s[j])
    decreases |s|
  {
    var n := |s| - 1;
    if j < n {
      MapSeqAt(g, s[..n], j);
    }
  }

  /** The column names of a list of tenors. */
  function WeightNames(tenors: seq<int>): (ns: seq<string>)
    ensures |ns| == |tenors|
  {
    MapSeq(WeightName, tenors)
  }

  /** A clamped tenor whose column does not exist yet joins without a
      clash and without a suffix. */
  lemma AddTenorFresh(f: Frame, t: int)
    requires HasKeyColumns(f) && KeysOf(f).Ok? && WeightName(t) !in f.names
    ensures AddTenor(true, f, t).Ok?
    ensures AddTenor(true, f, t).value.names == f.names + [WeightName(t)]
    ensures KeysOf(AddTenor(true, f, t).value).Ok?
  {
    var keys := KeysOf(f).value;
    assert TenorWeights(true, keys, t as real).Ok?;
    var ws := TenorWeights(true, keys, t as real).value;
    JoinWeightsColumns(f, keys, WeightName(t), ws);
  }

  /** The name of a later tenor is neither an existing column nor the name
      of an earlier, distinct tenor. */
  lemma FreshName(names: seq<string>, tenors: seq<int>, n: nat)
    requires n < |tenors| && Distinct(tenors)
    requires forall j :: 0 <= j < |tenors| ==> WeightName(tenors[j]) !in names
    ensures WeightName(tenors[n]) !in names + WeightNames(tenors[..n])
  {
    var t := tenors[n];
    forall j | 0 <= j < n ensures WeightNames(tenors[..n])[j] != WeightName(t) {
      assert tenors[..n][j] == tenors[j];
      MapSeqAt(WeightName, tenors[..n], j);
      if WeightName(tenors[j]) == WeightName(t) {
        WeightNameInjective(tenors[j], t);
      }
    }
  }

  lemma NamesAssoc(base: seq<string>, ns: seq<string>, n: string)
    ensures base + (ns + [n]) == (base + ns) + [n]
  {
  }

  /** One more tenor extends the run by one call of the single-tenor step. */
  lemma AddTenorsLast(clamp: bool, f: Frame, tenors: seq<int>, prev: Frame)
    requires HasKeyColumns(f) && tenors != [] && AddTenors(clamp, f, tenors[..|tenors| - 1]) == Ok(prev)
    ensures HasKeyColumns(prev)
    ensures AddTenors(clamp, f, tenors) == AddTenor(clamp, prev, tenors[|tenors| - 1])
  {
  }

  lemma DistinctInit(tenors: seq<int>, n: nat)
    requires Distinct(tenors) && n <= |tenors|
    ensures Distinct(tenors[..n])
    ensures forall j :: 0 <= j < n ==> tenors[..n][j] == tenors[j]
  {
  }

  /** A clamped run over distinct tenors whose columns do not exist yet
      succeeds whenever the key columns have the right types, and adds
      exactly the columns `weight_{T}d`, in tenor order. */
  lemma {:induction false} AddTenorsClamped(f: Frame, tenors: seq<int>)
    requires HasKeyColumns(f) && KeysOf(f).Ok?
    requires Distinct(tenors) && forall j :: 0 <= j < |tenors| ==> WeightName(tenors[j]) !in f.names
    ensures AddTenors(true, f, tenors).Ok?
    ensures AddTenors(true, f, tenors).value.names == f.names + WeightNames(tenors)
    ensures KeysOf(AddTenors(true, f, tenors).value).Ok?
    decreases |tenors|
  {
    if tenors != [] {
      var n := |tenors| - 1;
      var t := tenors[n];
      DistinctInit(tenors, n);
      AddTenorsClamped(f, tenors[..n]);
      var prev := AddTenors(true, f, tenors[..n]).value;
      FreshName(f.names, tenors, n);
      AddTenorsLast(true, f, tenors, prev);
      AddTenorFresh(prev, t);
      NamesAssoc(f.names, WeightNames(tenors[..n]), WeightName(t));
    }
  }

  /** The run over the first `i + 1` tenors is one step after the run over
      the first `i`, and a failing step decides the whole run. */
  lemma AddTenorsNext(clamp: bool, f: Frame, tenors: seq<int>, i: nat, prev: Frame)
    requires HasKeyColumns(f) && i < |tenors| && AddTenors(clamp, f, tenors[..i]) == Ok(prev)
    ensures HasKeyColumns(prev)
    ensures AddTenors(clamp, f, tenors[..i + 1]) == AddTenor(clamp, prev, tenors[i])
    ensures AddTenor(clamp, prev, tenors[i]).Err? ==> AddTenors(clamp, f, tenors) == AddTenor(clamp, prev, tenors[i])
  {
    assert tenors[..i + 1][..i] == tenors[..i];
    AddTenorsLast(clamp, f, tenors[..i + 1], prev);
    if AddTenor(clamp, prev, tenors[i]).Err? {
      AddTenorsErrSticks(clamp, f, tenors, i + 1);
    }
  }

  /** `add_weights`: check the key columns, then add every tenor. */
  function AddWeightsSpec(clamp: bool, term: Frame, tenors: seq<int>): (r: Result<Frame, WeightError>)
    requires WellFormed(term)
    ensures r.Err? && r.error.MissingColumns? <==> exists c :: c in KeyNames && c !in term.names
  {
    match RequireColumns(term.names, KeyNames)
    case Err(m) => Err(MissingColumns(m))
    case Ok(_) => AddTenors(clamp, term, tenors)
  }

  /** `add_weights` as the loop over tenors that reassigns the working
      table. */
  method AddWeights(clamp: bool, term: Frame, tenors: seq<int>) returns (r: Result<Frame, WeightError>)
    requires WellFormed(term)
    ensures r == AddWeightsSpec(clamp, term, tenors)
  {
    var req := RequireColumns(term.names, KeyNames);
    if req.Err? {
      return Err(MissingColumns(req.error));
    }
    var out := term;
    var i := 0;
    while i < |tenors|
      invariant 0 <= i <= |tenors|
      invariant AddTenors(clamp, term, tenors[..i]) == Ok(out)
    {
      var step := AddTenor(clamp, out, tenors[i]);
      AddTenorsNext(clamp, term, tenors, i, out);
      if step.Err? {
        return Err(step.error);
      }
      out := step.value;
      i := i + 1;
    }
    assert tenors[..i] == tenors;
    return Ok(out);
  }
}
