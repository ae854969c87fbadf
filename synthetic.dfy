/** `SyntheticPriceBuilder.build`: one row per trading day holding, for every
    `weight_` column of the weighted term table, the weighted sum of the
    closes of that day's contracts, as a column named `px_…`. */
module Synthetic {
  import opened Wrappers
  import opened Text
  import opened Frames
  import Utilis
  import Weights

  /** The builder's configuration, at the defaults every caller uses. */
  const PriceCol: string := "close"
  const DayCol: string := "tradingDay"
  const WeightPrefix: string := "weight_"
  const OutPrefix: string := "px_"

  datatype SynthError =
    | MissingColumns(missing: seq<string>)
    | NoWeightColumns
    | ColumnType(name: string)

  /** `[c for c in names if c.startswith(prefix)]`. */
  function WeightColumns(names: seq<string>): (ws: seq<string>)
    ensures |ws| <= |names|
  {
    if names == [] then []
    else
      var c := names[|names| - 1];
      WeightColumns(names[..|names| - 1]) + (if StartsWith(c, WeightPrefix) then [c] else [])
  }

  /** The weight columns are exactly the names carrying the prefix. */
  lemma {:induction false} WeightColumnsMembers(names: seq<string>)
    ensures forall c :: c in WeightColumns(names) <==> c in names && StartsWith(c, WeightPrefix)
    decreases |names|
  {
    if names != [] {
      var init := names[..|names| - 1];
      WeightColumnsMembers(init);
      assert names == init + [names[|names| - 1]];
    }
  }

  /** Filtering keeps the column order: the weight columns of a
      concatenation are the two lists of weight columns one after the other. */
  lemma {:induction false} WeightColumnsConcat(a: seq<string>, b: seq<string>)
    ensures WeightColumns(a + b) == WeightColumns(a) + WeightColumns(b)
    decreases |b|
  {
    if b == [] {
      assert a + b == a;
    } else {
      var n := |b| - 1;
      assert (a + b)[..|a + b| - 1] == a + b[..n];
      WeightColumnsConcat(a, b[..n]);
    }
  }

  /** No name is listed twice, since the frame's names are distinct. */
  lemma {:induction false} WeightColumnsDistinct(names: seq<string>)
    requires Distinct(names)
    ensures Distinct(WeightColumns(names))
    decreases |names|
  {
    if names != [] {
      var n := |names| - 1;
      var init := names[..n];
      assert Distinct(init);
      WeightColumnsDistinct(init);
      WeightColumnsMembers(init);
      assert names[n] !in init;
    }
  }

  /** `str.removeprefix`. */
  function RemovePrefix(s: string, p: string): (r: string)
    ensures StartsWith(s, p) ==> p + r == s
    ensures !StartsWith(s, p) ==> r == s
  {
    if StartsWith(s, p) then s[|p|..] else s
  }

  /** The output column of weight column `w`. */
  function OutName(w: string): (n: string)
    ensures StartsWith(n, OutPrefix)
  {
    OutPrefix + RemovePrefix(w, WeightPrefix)
  }

  /** Distinct weight columns give distinct output columns. */
  lemma OutNameInjective(a: string, b: string)
    requires StartsWith(a, WeightPrefix) && StartsWith(b, WeightPrefix)
    ensures OutName(a) == OutName(b) ==> a == b
  {
    var ra, rb := RemovePrefix(a, WeightPrefix), RemovePrefix(b, WeightPrefix);
    assert ra == OutName(a)[|OutPrefix|..];
    assert rb == OutName(b)[|OutPrefix|..];
  }

  /** The column the weighter names `weight_{T}d` becomes `px_{T}d`. */
  lemma OutNameOfTenor(t: int)
    ensures OutName(Weights.WeightName(t)) == OutPrefix + IntToString(t) + "d"
  {
    var w := Weights.WeightName(t);
    assert w[|WeightPrefix|..] == IntToString(t) + "d";
  }

  lemma OutNameExample()
    ensures OutName("weight_30d") == "px_30d"
  {
    assert StartsWith("weight_30d", WeightPrefix);
    assert "weight_30d"[|WeightPrefix|..] == "30d";
  }

  function OutNames(ws: seq<string>): (ns: seq<string>)
    ensures |ns| == |ws|
  {
    seq(|ws|, j requires 0 <= j < |ws| => OutName(ws[j]))
  }

  /** The output names are distinct and never the day column's. */
  lemma OutNamesDistinct(ws: seq<string>)
    requires Distinct(ws) && forall j :: 0 <= j < |ws| ==> StartsWith(ws[j], WeightPrefix)
    ensures Distinct([DayCol] + OutNames(ws))
  {
    var ns := [DayCol] + OutNames(ws);
    forall i, j | 0 <= i < j < |ns| ensures ns[i] != ns[j] {
      if i == 0 {
        assert ns[j][..|OutPrefix|] == OutPrefix;
        assert DayCol[0] != OutPrefix[0];
      } else {
        OutNameInjective(ws[i - 1], ws[j - 1]);
      }
    }
  }

  /** A column read as numbers, as polars' `*` does for integer and float
      columns; text has no product. */
  function Numeric(c: Column): (r: Option<seq<real>>)
    ensures r.Some? <==> !c.TextCol?
    ensures r.Some? ==> |r.value| == Len(c)
  {
    match c
    case IntCol(v) => Some(seq(|v|, i requires 0 <= i < |v| => v[i] as real))
    case RealCol(v) => Some(v)
    case TextCol(_) => None
  }

  /** `pl.col(price) * pl.col(w)`, row by row. */
  function Products(p: seq<real>, w: seq<real>): (r: seq<real>)
    requires |p| == |w|
    ensures |r| == |p|
  {
    seq(|p|, i requires 0 <= i < |p| => p[i] * w[i])
  }

  predicate Increasing(s: seq<int>) {
    forall i, j :: 0 <= i < j < |s| ==> s[i] < s[j]
  }

  /** One distinct day added to a sorted list of distinct days. */
  function InsertDay(s: seq<int>, x: int): seq<int> {
    if s == [] then [x]
    else if x < s[0] then [x] + s
    else if x == s[0] then s
    else [s[0]] + InsertDay(s[1..], x)
  }

  lemma {:induction false} InsertDaySpec(s: seq<int>, x: int)
    requires Increasing(s)
    ensures Increasing(InsertDay(s, x))
    ensures forall y :: y in InsertDay(s, x) <==> y == x || y in s
    decreases |s|
  {
    if s == [] {
    } else if x < s[0] {
      assert forall y :: y in s ==> s[0] <= y;
      ConsIncreasing(x, s);
    } else if x > s[0] {
      var rest := InsertDay(s[1..], x);
      InsertDaySpec(s[1..], x);
      assert InsertDay(s, x) == [s[0]] + rest;
      forall y | y in rest ensures s[0] < y {
        if y != x {
          var k :| 0 <= k < |s[1..]| && s[1..][k] == y;
          assert s[k + 1] == y;
        }
      }
      ConsIncreasing(s[0], rest);
      assert forall y :: y in s <==> y == s[0] || y in s[1..];
    }
  }

  /** A day below every day of a sorted list can go in front. */
  lemma ConsIncreasing(a: int, s: seq<int>)
    requires Increasing(s) && forall y :: y in s ==> a < y
    ensures Increasing([a] + s)
  {
    var r := [a] + s;
    forall i, j | 0 <= i < j < |r| ensures r[i] < r[j] {
      assert r[j] == s[j - 1] && s[j - 1] in s;
      if i > 0 {
        assert r[i] == s[i - 1];
      }
    }
  }

  /** The distinct trading days in ascending order: the groups of
      `group_by(day)` after `sort(day)`. */
  function SortedDays(days: seq<int>): (r: seq<int>)
    ensures Increasing(r)
    ensures forall x :: x in r <==> x in days
    decreases |days|
  {
    if days == [] then []
    else
      var init := days[..|days| - 1];
      var sorted := SortedDays(init);
      InsertDaySpec(sorted, days[|days| - 1]);
      assert days == init + [days[|days| - 1]];
      InsertDay(sorted, days[|days| - 1])
  }

  /** `(price * w).sum()` within each day group, in day order. */
  function DaySums(groups: seq<int>, vals: seq<real>, days: seq<int>): (r: seq<real>)
    requires |groups| == |vals|
    ensures |r| == |days|
  {
    seq(|days|, k requires 0 <= k < |days| => GroupSum(groups, vals, days[k]))
  }

  /** One aggregated column per weight column, in weight-column order; a
      text weight column cannot be multiplied. */
  function SynthColumns(f: Frame, ws: seq<string>, groups: seq<int>, price: seq<real>, days: seq<int>)
    : (r: Result<seq<Column>, SynthError>)
    requires WellFormed(f) && |groups| == f.height && |price| == f.height
    requires forall j :: 0 <= j < |ws| ==> ws[j] in f.names
    ensures r.Ok? ==> |r.value| == |ws|
    ensures r.Err? ==> r.error.ColumnType? && r.error.name in ws
    decreases |ws|
  {
    if ws == [] then Ok([])
    else
      var n := |ws| - 1;
      match SynthColumns(f, ws[..n], groups, price, days)
      case Err(e) => Err(e)
      case Ok(cs) =>
        match Numeric(Col(f, ws[n]))
        case None => Err(ColumnType(ws[n]))
        case Some(w) => Ok(cs + [RealCol(DaySums(groups, Products(price, w), days))])
  }

  /** `build`: check the day and price columns, find the weight columns,
      then group by day, sum price × weight and sort by day. */
  function Build(f: Frame): (r: Result<Frame, SynthError>)
    requires WellFormed(f)
    ensures r.Err? && r.error.MissingColumns? <==> DayCol !in f.names || PriceCol !in f.names
    ensures r.Err? && r.error == NoWeightColumns
      <==> DayCol in f.names && PriceCol in f.names && forall c :: c in f.names ==> !StartsWith(c, WeightPrefix)
    ensures r.Ok? ==> r.value.names == [DayCol] + OutNames(WeightColumns(f.names))
    ensures r.Ok? ==>
      DayCol in f.names && PriceCol in f.names && Col(f, DayCol).IntCol? && !Col(f, PriceCol).TextCol?
  {
    WeightColumnsMembers(f.names);
    match Utilis.RequireColumns(f.names, [DayCol, PriceCol])
    case Err(m) => Err(MissingColumns(m))
    case Ok(_) =>
      var ws := WeightColumns(f.names);
      if ws == [] then
        assert forall c :: c in f.names ==> !StartsWith(c, WeightPrefix);
        Err(NoWeightColumns)
      else
        assert ws[0] in f.names;
        var day := Col(f, DayCol);
        var price := Numeric(Col(f, PriceCol));
        if !day.IntCol? then Err(ColumnType(DayCol))
        else if price.None? then Err(ColumnType(PriceCol))
        else
          var days := SortedDays(day.ints);
          match SynthColumns(f, ws, day.ints, price.value, days)
          case Err(e) => Err(e)
          case Ok(cs) => Ok(Frame([DayCol] + OutNames(ws), [IntCol(days)] + cs, |days|))
  }

  /** Column `j` of the aggregated columns is the per-day sum of price
      times weight column `ws[j]`. */
  lemma {:induction false} SynthColumnsAt(f: Frame, ws: seq<string>, groups: seq<int>, price: seq<real>, days: seq<int>, j: nat)
    requires WellFormed(f) && |groups| == f.height && |price| == f.height
    requires forall i :: 0 <= i < |ws| ==> ws[i] in f.names
    requires SynthColumns(f, ws, groups, price, days).Ok? && j < |ws|
    ensures Numeric(Col(f, ws[j])).Some?
    ensures SynthColumns(f, ws, groups, price, days).value[j]
      == RealCol(DaySums(groups, Products(price, Numeric(Col(f, ws[j])).value), days))
    decreases |ws|
  {
    var n := |ws| - 1;
    if j < n {
      SynthColumnsAt(f, ws[..n], groups, price, days, j);
      assert ws[..n][j] == ws[j];
    }
  }

  /** How a successful build is put together, for the lemmas below. */
  lemma BuildOkForm(f: Frame)
    requires WellFormed(f) && Build(f).Ok?
    ensures forall j :: 0 <= j < |WeightColumns(f.names)| ==> WeightColumns(f.names)[j] in f.names
    ensures var ws := WeightColumns(f.names);
      var day := Col(f, DayCol).ints;
      var price := Numeric(Col(f, PriceCol)).value;
      var days := SortedDays(day);
      SynthColumns(f, ws, day, price, days).Ok?
      && Build(f).value == Frame([DayCol] + OutNames(ws), [IntCol(days)] + SynthColumns(f, ws, day, price, days).value, |days|)
  {
    WeightColumnsMembers(f.names);
  }

  /** The rows of a successful build: its first column lists every trading
      day of the input once, in ascending order, one row per day. */
  lemma BuildDays(f: Frame)
    requires WellFormed(f) && Build(f).Ok?
    ensures var r := Build(f).value;
      var days := SortedDays(Col(f, DayCol).ints);
      r.height == |days| && r.columns[0] == IntCol(days)
      && |r.columns| == 1 + |WeightColumns(f.names)|
      && Increasing(days) && (forall x :: x in days <==> x in Col(f, DayCol).ints)
  {
    BuildOkForm(f);
  }

  /** A successful build is a well-formed table: distinct column names and
      every column one value per trading day. */
  lemma BuildWellFormed(f: Frame)
    requires WellFormed(f) && Build(f).Ok?
    ensures WellFormed(Build(f).value)
  {
    BuildOkForm(f);
    WeightColumnsMembers(f.names);
    var ws := WeightColumns(f.names);
    var day := Col(f, DayCol).ints;
    var price := Numeric(Col(f, PriceCol)).value;
    var days := SortedDays(day);
    forall j | 0 <= j < |ws| ensures Len(SynthColumns(f, ws, day, price, days).value[j]) == |days| {
      SynthColumnsAt(f, ws, day, price, days, j);
    }
    WeightColumnsDistinct(f.names);
    OutNamesDistinct(ws);
    TableWellFormed(OutNames(ws), days, SynthColumns(f, ws, day, price, days).value);
  }

  /** A day column followed by one column per output name, all as long as
      the day column, with distinct names, is a well-formed table. */
  lemma TableWellFormed(ns: seq<string>, days: seq<int>, cs: seq<Column>)
    requires |cs| == |ns| && Distinct([DayCol] + ns)
    requires forall j :: 0 <= j < |cs| ==> Len(cs[j]) == |days|
    ensures WellFormed(Frame([DayCol] + ns, [IntCol(days)] + cs, |days|))
  {
    var r := [IntCol(days)] + cs;
    forall i | 0 <= i < |r| ensures Len(r[i]) == |days| {
      if i > 0 {
        assert r[i] == cs[i - 1];
      }
    }
  }

  /** The values of a successful build: the column for weight column
      `ws[j]` holds, on the `k`-th trading day, the sum over that day's rows
      of close × weight. */
  lemma BuildValues(f: Frame, j: nat)
    requires WellFormed(f) && Build(f).Ok? && j < |WeightColumns(f.names)|
    ensures var w := WeightColumns(f.names)[j];
      w in f.names && Numeric(Col(f, w)).Some?
      && Build(f).value.columns[1 + j]
        == RealCol(DaySums(Col(f, DayCol).ints,
             Products(Numeric(Col(f, PriceCol)).value, Numeric(Col(f, w)).value),
             SortedDays(Col(f, DayCol).ints)))
  {
    BuildOkForm(f);
    var ws := WeightColumns(f.names);
    var day := Col(f, DayCol).ints;
    var price := Numeric(Col(f, PriceCol)).value;
    SynthColumnsAt(f, ws, day, price, SortedDays(day), j);
  }

  /** With the required columns and a weight column present, the build
      fails exactly when a column it reads has the wrong type: the day column
      is not a date column, or the close or some weight column is text. */
  lemma BuildErrTypes(f: Frame)
    requires WellFormed(f) && DayCol in f.names && PriceCol in f.names
    requires exists c :: c in f.names && StartsWith(c, WeightPrefix)
    ensures Build(f).Err? <==>
      !Col(f, DayCol).IntCol? || Col(f, PriceCol).TextCol?
      || exists c :: c in f.names && StartsWith(c, WeightPrefix) && Col(f, c).TextCol?
    ensures Build(f).Err? ==> Build(f).error.ColumnType?
  {
    WeightColumnsMembers(f.names);
    var ws := WeightColumns(f.names);
    var c0 :| c0 in f.names && StartsWith(c0, WeightPrefix);
    assert c0 in ws;
    if Col(f, DayCol).IntCol? && !Col(f, PriceCol).TextCol? {
      var day := Col(f, DayCol).ints;
      var price := Numeric(Col(f, PriceCol)).value;
      SynthColumnsErr(f, ws, day, price, SortedDays(day));
    }
  }

  /** The aggregation fails exactly when some weight column is text. */
  lemma {:induction false} SynthColumnsErr(f: Frame, ws: seq<string>, groups: seq<int>, price: seq<real>, days: seq<int>)
    requires WellFormed(f) && |groups| == f.height && |price| == f.height
    requires forall i :: 0 <= i < |ws| ==> ws[i] in f.names
    ensures SynthColumns(f, ws, groups, price, days).Err? <==> exists c :: c in ws && Col(f, c).TextCol?
    decreases |ws|
  {
    if ws != [] {
      var n := |ws| - 1;
      var init := ws[..n];
      SynthColumnsErr(f, init, groups, price, days);
      if SynthColumns(f, ws, groups, price, days).Err? {
        if !SynthColumns(f, init, groups, price, days).Err? {
          assert Col(f, ws[n]).TextCol?;
        } else {
          var c :| c in init && Col(f, c).TextCol?;
          assert c in ws;
        }
      } else {
        forall c | c in ws ensures !Col(f, c).TextCol? {
          if c != ws[n] {
            assert c in init;
          }
        }
      }
    }
  }

  /** Summing is linear: scaling every value scales the day's sum. */
  lemma {:induction false} GroupSumScale(groups: seq<int>, vals: seq<real>, scaled: seq<real>, c: real, g: int)
    requires |groups| == |vals| == |scaled|
    requires forall i :: 0 <= i < |vals| ==> scaled[i] == c * vals[i]
    ensures GroupSum(groups, scaled, g) == c * GroupSum(groups, vals, g)
    decreases |groups|
  {
    if groups != [] {
      // The slices are written as in `GroupSum`'s body, so the recursive
      // call's terms are the ones its unfolding produces.
      GroupSumScale(groups[..|groups| - 1], vals[..|vals| - 1], scaled[..|scaled| - 1], c, g);
    }
  }

  /** Every value scaled by `c`. */
  function Scale(c: real, w: seq<real>): (r: seq<real>)
    ensures |r| == |w| && forall i :: 0 <= i < |w| ==> r[i] == c * w[i]
  {
    seq(|w|, i requires 0 <= i < |w| => c * w[i])
  }

  /** A day's weighted sum is at least its lowest close times its total
      weight when the weights are non-negative. */
  lemma SyntheticAbove(groups: seq<int>, p: seq<real>, w: seq<real>, d: int, lo: real)
    requires |groups| == |p| == |w|
    requires forall i :: 0 <= i < |w| ==> 0.0 <= w[i]
    requires forall i :: 0 <= i < |p| && groups[i] == d ==> lo <= p[i]
    ensures lo * GroupSum(groups, w, d) <= GroupSum(groups, Products(p, w), d)
  {
    var pw := Products(p, w);
    var low := Scale(lo, w);
    GroupSumScale(groups, w, low, lo, d);
    forall i | 0 <= i < |w| && groups[i] == d ensures low[i] <= pw[i] {
      MulMono(lo, p[i], w[i]);
    }
    GroupSumMonoOn(groups, low, pw, d);
  }

  /** A day's weighted sum is at most its highest close times its total
      weight when the weights are non-negative. */
  lemma SyntheticBelow(groups: seq<int>, p: seq<real>, w: seq<real>, d: int, hi: real)
    requires |groups| == |p| == |w|
    requires forall i :: 0 <= i < |w| ==> 0.0 <= w[i]
    requires forall i :: 0 <= i < |p| && groups[i] == d ==> p[i] <= hi
    ensures GroupSum(groups, Products(p, w), d) <= hi * GroupSum(groups, w, d)
  {
    var pw := Products(p, w);
    var high := Scale(hi, w);
    GroupSumScale(groups, w, high, hi, d);
    forall i | 0 <= i < |w| && groups[i] == d ensures pw[i] <= high[i] {
      MulMono(p[i], hi, w[i]);
    }
    GroupSumMonoOn(groups, pw, high, d);
  }

  /** Where a day's weights are non-negative and sum to one, its synthetic
      price lies between the lowest and the highest close of that day. */
  lemma SyntheticBetween(groups: seq<int>, p: seq<real>, w: seq<real>, d: int, lo: real, hi: real)
    requires |groups| == |p| == |w|
    requires forall i :: 0 <= i < |w| ==> 0.0 <= w[i]
    requires forall i :: 0 <= i < |p| && groups[i] == d ==> lo <= p[i] <= hi
    requires GroupSum(groups, w, d) == 1.0
    ensures lo <= GroupSum(groups, Products(p, w), d) <= hi
  {
    SyntheticAbove(groups, p, w, d, lo);
    SyntheticBelow(groups, p, w, d, hi);
  }

  lemma MulMono(x: real, y: real, w: real)
    requires x <= y && 0.0 <= w
    ensures x * w <= y * w
  {
    assert y * w - x * w == (y - x) * w;
  }

  /** A sum over a day is monotone in the values of that day's rows. */
  lemma {:induction false} GroupSumMonoOn(groups: seq<int>, a: seq<real>, b: seq<real>, g: int)
    requires |groups| == |a| == |b|
    requires forall i :: 0 <= i < |a| && groups[i] == g ==> a[i] <= b[i]
    ensures GroupSum(groups, a, g) <= GroupSum(groups, b, g)
    decreases |groups|
  {
    if groups != [] {
      var n := |groups| - 1;
      GroupSumMonoOn(groups[..n], a[..n], b[..n], g);
    }
  }

  /** When every read succeeds, the build is the day column followed by the
      aggregated columns. */
  lemma BuildOkWhen(f: Frame, ws: seq<string>, day: seq<int>, price: seq<real>, days: seq<int>, cs: seq<Column>)
    requires WellFormed(f) && DayCol in f.names && PriceCol in f.names
    requires WeightColumns(f.names) == ws && ws != []
    requires Col(f, DayCol) == IntCol(day) && Numeric(Col(f, PriceCol)) == Some(price)
    requires forall j :: 0 <= j < |ws| ==> ws[j] in f.names
    requires SortedDays(day) == days && SynthColumns(f, ws, day, price, days) == Ok(cs)
    ensures Build(f) == Ok(Frame([DayCol] + OutNames(ws), [IntCol(days)] + cs, |days|))
  {
    assert Utilis.RequireColumns(f.names, [DayCol, PriceCol]).Ok?;
  }

  /** Two contracts traded on day `d` with closes `c1`, `c2` and weights
      `w1`, `w2` for the 30-day tenor. */
  function OneDayInput(d: int, c1: real, c2: real, w1: real, w2: real): Frame {
    Frame(["tradingDay", "close", "weight_30d"], [IntCol([d, d]), RealCol([c1, c2]), RealCol([w1, w2])], 2)
  }

  lemma OneDayWeightColumns()
    ensures WeightColumns(["tradingDay", "close", "weight_30d"]) == ["weight_30d"]
  {
    var names := ["tradingDay", "close", "weight_30d"];
    assert "tradingDay"[..|WeightPrefix|][0] != WeightPrefix[0];
    assert "close"[0] != WeightPrefix[0];
    assert StartsWith("weight_30d", WeightPrefix);
    assert names[..2][..1] == names[..1] && names[..3][..2] == names[..2];
  }

  lemma OneDayReads(d: int, c1: real, c2: real, w1: real, w2: real)
    ensures var f := OneDayInput(d, c1, c2, w1, w2);
      WellFormed(f) && DayCol in f.names && PriceCol in f.names && "weight_30d" in f.names
      && Col(f, DayCol) == IntCol([d, d]) && Numeric(Col(f, PriceCol)) == Some([c1, c2])
      && Numeric(Col(f, "weight_30d")) == Some([w1, w2])
    ensures SortedDays([d, d]) == [d]
  {
    var f := OneDayInput(d, c1, c2, w1, w2);
    assert WellFormed(f);
    assert Col(f, PriceCol) == RealCol([c1, c2]);
    assert Col(f, "weight_30d") == RealCol([w1, w2]);
    assert [d, d][..1] == [d] && [d][..0] == [];
    assert SortedDays([d]) == [d];
  }

  lemma OneDaySums(d: int, c1: real, c2: real, w1: real, w2: real)
    ensures WellFormed(OneDayInput(d, c1, c2, w1, w2))
    ensures SynthColumns(OneDayInput(d, c1, c2, w1, w2), ["weight_30d"], [d, d], [c1, c2], [d])
      == Ok([RealCol([c1 * w1 + c2 * w2])])
  {
    var f := OneDayInput(d, c1, c2, w1, w2);
    OneDayReads(d, c1, c2, w1, w2);
    var ws := ["weight_30d"];
    var pw := Products([c1, c2], [w1, w2]);
    assert |pw| == 2 && pw[0] == c1 * w1 && pw[1] == c2 * w2;
    assert pw == [c1 * w1, c2 * w2];
    assert GroupSum([d, d], pw, d) == c1 * w1 + c2 * w2 by {
      assert [d, d][..1] == [d] && pw[..1] == [c1 * w1] && pw[1] == c2 * w2;
      assert GroupSum([d], [c1 * w1], d) == c1 * w1 by {
        assert [d][..0] == [] && [c1 * w1][..0] == [];
        assert GroupSum([], [], d) == 0.0;
      }
    }
    assert DaySums([d, d], pw, [d]) == [c1 * w1 + c2 * w2];
    assert ws[..0] == [];
    assert SynthColumns(f, ws[..0], [d, d], [c1, c2], [d]) == Ok([]);
    assert SynthColumns(f, ws, [d, d], [c1, c2], [d]) == Ok([] + [RealCol(DaySums([d, d], pw, [d]))]);
    assert [] + [RealCol([c1 * w1 + c2 * w2])] == [RealCol([c1 * w1 + c2 * w2])];
  }

  lemma OneDayNames()
    ensures [DayCol] + OutNames(["weight_30d"]) == ["tradingDay", "px_30d"]
  {
    OutNameExample();
    assert OutNames(["weight_30d"]) == ["px_30d"];
  }

  lemma OneDayPrice(c1: real, c2: real, w1: real, w2: real)
    ensures c1 == 10.0 && c2 == 20.0 && w1 == 0.25 && w2 == 0.75 ==> c1 * w1 + c2 * w2 == 17.5
  {
  }

  /** Two contracts on one day make one row whose synthetic price is the
      weighted sum of their closes: with closes 10 and 20 and weights 0.25
      and 0.75, the price is 17.5. */
  lemma BuildOneDay(d: int, c1: real, c2: real, w1: real, w2: real)
    ensures WellFormed(OneDayInput(d, c1, c2, w1, w2))
    ensures Build(OneDayInput(d, c1, c2, w1, w2))
      == Ok(Frame(["tradingDay", "px_30d"], [IntCol([d]), RealCol([c1 * w1 + c2 * w2])], 1))
    ensures c1 == 10.0 && c2 == 20.0 && w1 == 0.25 && w2 == 0.75 ==> c1 * w1 + c2 * w2 == 17.5
  {
    OneDayPrice(c1, c2, w1, w2);
    OneDayReads(d, c1, c2, w1, w2);
    OneDaySums(d, c1, c2, w1, w2);
    OneDayWeightColumns();
    OneDayNames();
    var c := RealCol([c1 * w1 + c2 * w2]);
    BuildOkWhen(OneDayInput(d, c1, c2, w1, w2), ["weight_30d"], [d, d], [c1, c2], [d], [c]);
    assert [IntCol([d])] + [c] == [IntCol([d]), c];
  }
}
