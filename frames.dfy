/** A small model of the polars `DataFrame` the weighting and synthetic
    stages work on: named, typed columns of one common height.  Dates are held
    as day ordinals and datetimes as seconds, so both are integer columns. */
module Frames {
  import opened Text

  datatype Column = IntCol(ints: seq<int>) | RealCol(reals: seq<real>) | TextCol(texts: seq<string>)

  function Len(c: Column): (n: nat)
    ensures c.IntCol? ==> n == |c.ints|
    ensures c.RealCol? ==> n == |c.reals|
    ensures c.TextCol? ==> n == |c.texts|
  {
    match c
    case IntCol(v) => |v|
    case RealCol(v) => |v|
    case TextCol(v) => |v|
  }

  datatype Frame = Frame(names: seq<string>, columns: seq<Column>, height: nat)

  predicate Distinct<T(==)>(s: seq<T>) {
    forall i, j :: 0 <= i < j < |s| ==> s[i] != s[j]
  }

  /** One column per distinct name, every column `height` long. */
  predicate WellFormed(f: Frame) {
    |f.names| == |f.columns| && Distinct(f.names)
    && forall i :: 0 <= i < |f.columns| ==> Len(f.columns[i]) == f.height
  }

  /** The position of column `n`. */
  function IndexOfName(names: seq<string>, n: string): (i: nat)
    requires n in names
    ensures i < |names| && names[i] == n
    ensures forall j :: 0 <= j < i ==> names[j] != n
  {
    if names[0] == n then 0 else 1 + IndexOfName(names[1..], n)
  }

  /** `df[n]`. */
  function Col(f: Frame, n: string): (c: Column)
    requires WellFormed(f) && n in f.names
    ensures Len(c) == f.height
  {
    f.columns[IndexOfName(f.names, n)]
  }

  /** The rows `idx` of a column, in that order. */
  function Gather(c: Column, idx: seq<nat>): (r: Column)
    requires forall k :: 0 <= k < |idx| ==> idx[k] < Len(c)
    ensures Len(r) == |idx|
    ensures c.IntCol? ==> r.IntCol? && forall k :: 0 <= k < |idx| ==> idx[k] < |c.ints| && r.ints[k] == c.ints[idx[k]]
    ensures c.RealCol? ==> r.RealCol? && forall k :: 0 <= k < |idx| ==> idx[k] < |c.reals| && r.reals[k] == c.reals[idx[k]]
    ensures c.TextCol? ==> r.TextCol? && forall k :: 0 <= k < |idx| ==> idx[k] < |c.texts| && r.texts[k] == c.texts[idx[k]]
  {
    var n := Len(c);
    match c
    case IntCol(v) => IntCol(seq(|idx|, k requires 0 <= k < |idx| && |v| == n => v[idx[k]]))
    case RealCol(v) => RealCol(seq(|idx|, k requires 0 <= k < |idx| && |v| == n => v[idx[k]]))
    case TextCol(v) => TextCol(seq(|idx|, k requires 0 <= k < |idx| && |v| == n => v[idx[k]]))
  }

  /** The identity row selection of a frame of height `n`. */
  function AllRows(n: nat): (idx: seq<nat>)
    ensures |idx| == n && forall k :: 0 <= k < n ==> idx[k] == k
  {
    seq(n, k requires 0 <= k < n => k)
  }

  lemma GatherAllRows(c: Column)
    ensures Gather(c, AllRows(Len(c))) == c
  {
  }

  /** Every row `idx` selects, taken from every column. */
  function GatherFrame(f: Frame, idx: seq<nat>): (g: Frame)
    requires WellFormed(f)
    requires forall k :: 0 <= k < |idx| ==> idx[k] < f.height
    ensures WellFormed(g) && g.names == f.names && g.height == |idx|
    ensures forall i :: 0 <= i < |f.columns| ==> g.columns[i] == Gather(f.columns[i], idx)
  {
    Frame(f.names, seq(|f.columns|, i requires 0 <= i < |f.columns| => Gather(f.columns[i], idx)), |idx|)
  }

  /** Appending a name after the existing ones leaves their positions alone. */
  lemma {:induction false} IndexOfNameAppend(names: seq<string>, extra: string, n: string)
    requires n in names
    ensures IndexOfName(names + [extra], n) == IndexOfName(names, n)
  {
    if names[0] != n {
      assert (names + [extra])[1..] == names[1..] + [extra];
      IndexOfNameAppend(names[1..], extra, n);
    }
  }

  /** `group_by(groups).agg(vals.sum())` read at group `g`: the sum of
      `vals[i]` over the rows `i` whose group value is `g`. */
  function GroupSum(groups: seq<int>, vals: seq<real>, g: int): real
    requires |groups| == |vals|
  {
    if groups == [] then 0.0
    else
      GroupSum(groups[..|groups| - 1], vals[..|vals| - 1], g)
        + (if groups[|groups| - 1] == g then vals[|vals| - 1] else 0.0)
  }

  /** A group with no rows sums to zero. */
  lemma {:induction false} GroupSumAbsent(groups: seq<int>, vals: seq<real>, g: int)
    requires |groups| == |vals|
    requires forall i :: 0 <= i < |groups| ==> groups[i] != g
    ensures GroupSum(groups, vals, g) == 0.0
    decreases |groups|
  {
    if groups != [] {
      var n := |groups| - 1;
      GroupSumAbsent(groups[..n], vals[..n], g);
    }
  }

  /** A group's sum of non-negative values is non-negative. */
  lemma {:induction false} GroupSumNonNegative(groups: seq<int>, vals: seq<real>, g: int)
    requires |groups| == |vals|
    requires forall i :: 0 <= i < |vals| ==> vals[i] >= 0.0
    ensures GroupSum(groups, vals, g) >= 0.0
    decreases |groups|
  {
    if groups != [] {
      var n := |groups| - 1;
      GroupSumNonNegative(groups[..n], vals[..n], g);
    }
  }
}
