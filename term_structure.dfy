/** `TermStructureBuilder` of `term_structure.py`: per batch, one
    observation per (symbol, tradingDay) closest to 14:55, the time to
    maturity of each, and the de-duplicated, sorted union of all batches. */
module TermStructure {
  import opened Wrappers
  import opened Text
  import opened Dates
  import opened Configs
  import opened Utilis
  import opened Frames

  /** A row of a CSV batch as read: the symbol may be null.  Timestamps are
      seconds in the reference zone and trading days are day ordinals. */
  datatype RawRow = RawRow(symbol: Option<string>, timestamp: int, tradingDay: int, close: real)

  /** A row whose symbol is known. */
  datatype Obs = Obs(symbol: string, timestamp: int, tradingDay: int, close: real)

  /** One CSV file in sorted path order: `read_csv` with the four columns
      either raises `ColumnNotFoundError` (the file is skipped) or yields
      the rows. */
  datatype Batch = Unreadable(fileName: string) | Loaded(fileName: string, rows: seq<RawRow>)

  /** The exceptions `build` can raise. */
  datatype BuildError =
    | ExpiryLineUnparsable(line: string)
    | NoCsvFiles
    | CannotInferSymbol(fileName: string)
    | NullSymbol(fileName: string)
    | UnrecognizedSymbol(symbol: string)
    | NothingToConcat

  /** The grouping key of selection. */
  datatype SymDay = SymDay(symbol: string, day: int)

  function KeyOf(o: Obs): SymDay {
    SymDay(o.symbol, o.tradingDay)
  }

  /** The order of `sort(["symbol", "tradingDay"])` on group keys. */
  predicate SymDayLess(a: SymDay, b: SymDay) {
    StrLess(a.symbol, b.symbol) || (a.symbol == b.symbol && a.day < b.day)
  }

  lemma SymDayLessTransitive(a: SymDay, b: SymDay, c: SymDay)
    requires SymDayLess(a, b) && SymDayLess(b, c)
    ensures SymDayLess(a, c)
  {
    if StrLess(a.symbol, b.symbol) && StrLess(b.symbol, c.symbol) {
      StrLessTransitive(a.symbol, b.symbol, c.symbol);
    }
  }

  lemma SymDayLessTotal(a: SymDay, b: SymDay)
    requires a != b
    ensures SymDayLess(a, b) || SymDayLess(b, a)
  {
    if a.symbol != b.symbol {
      StrLessTotal(a.symbol, b.symbol);
    }
  }

  lemma SymDayLessIrreflexive(a: SymDay)
    ensures !SymDayLess(a, a)
  {
    StrLessIrreflexive(a.symbol);
  }

  predicate Increasing(ks: seq<SymDay>) {
    forall i, j :: 0 <= i < j < |ks| ==> SymDayLess(ks[i], ks[j])
  }

  lemma LessThanAll(k: SymDay, ks: seq<SymDay>)
    requires Increasing(ks) && ks != [] && SymDayLess(k, ks[0])
    ensures forall j :: 0 <= j < |ks| ==> SymDayLess(k, ks[j])
  {
    forall j | 0 < j < |ks| ensures SymDayLess(k, ks[j]) {
      SymDayLessTransitive(k, ks[0], ks[j]);
    }
  }

  /** Insert a key into an increasing list of distinct keys. */
  function InsertKey(ks: seq<SymDay>, k: SymDay): (r: seq<SymDay>)
    requires Increasing(ks)
    ensures Increasing(r)
    ensures forall x :: x in r <==> x in ks || x == k
    decreases |ks|
  {
    if ks == [] then [k]
    else if k == ks[0] then ks
    else if SymDayLess(k, ks[0]) then
      LessThanAll(k, ks);
      [k] + ks
    else
      SymDayLessTotal(k, ks[0]);
      var rest := InsertKey(ks[1..], k);
      assert forall x :: x in rest ==> SymDayLess(ks[0], x);
      [ks[0]] + rest
  }

  predicate HasKey(rows: seq<Obs>, k: SymDay) {
    exists i :: 0 <= i < |rows| && KeyOf(rows[i]) == k
  }

  /** The distinct group keys of a batch, in `sort` order. */
  function SortedKeys(rows: seq<Obs>): (ks: seq<SymDay>)
    ensures Increasing(ks)
    ensures forall k :: k in ks <==> HasKey(rows, k)
    decreases |rows|
  {
    if rows == [] then []
    else
      var init := rows[..|rows| - 1];
      assert forall i :: 0 <= i < |init| ==> init[i] == rows[i];
      InsertKey(SortedKeys(init), KeyOf(rows[|rows| - 1]))
  }

  /** `abs_diff`: distance in seconds from 14:55 on the row's trading day. */
  function AbsDiff(o: Obs): nat {
    var target := TargetTs(o.tradingDay);
    if o.timestamp >= target then o.timestamp - target else target - o.timestamp
  }

  /** The row `group_by(...).first()` keeps for group `k` after sorting by
      `abs_diff`: a row of the group at minimal distance (the earliest such
      row when several tie). */
  function Closest(rows: seq<Obs>, k: SymDay): (b: Obs)
    requires HasKey(rows, k)
    ensures b in rows && KeyOf(b) == k
    ensures forall i :: 0 <= i < |rows| && KeyOf(rows[i]) == k ==> AbsDiff(b) <= AbsDiff(rows[i])
    decreases |rows|
  {
    if KeyOf(rows[0]) != k then
      assert HasKey(rows[1..], k) by {
        var i :| 0 <= i < |rows| && KeyOf(rows[i]) == k;
        assert rows[1..][i - 1] == rows[i];
      }
      Closest(rows[1..], k)
    else if !HasKey(rows[1..], k) then
      assert forall i :: 1 <= i < |rows| ==> rows[1..][i - 1] == rows[i];
      rows[0]
    else
      var b := Closest(rows[1..], k);
      assert forall i :: 1 <= i < |rows| ==> rows[1..][i - 1] == rows[i];
      if AbsDiff(rows[0]) <= AbsDiff(b) then rows[0] else b
  }

  /** The chosen row of each key in `ks`, in the order of `ks`. */
  function ClosestPerKey(rows: seq<Obs>, ks: seq<SymDay>): (r: seq<Obs>)
    requires forall j :: 0 <= j < |ks| ==> HasKey(rows, ks[j])
    ensures |r| == |ks|
    ensures forall j :: 0 <= j < |ks| ==> r[j] in rows && KeyOf(r[j]) == ks[j]
    ensures forall j, i ::
      (0 <= j < |ks| && 0 <= i < |rows| && KeyOf(rows[i]) == ks[j]) ==> AbsDiff(r[j]) <= AbsDiff(rows[i])
  {
    seq(|ks|, j requires 0 <= j < |ks| => Closest(rows, ks[j]))
  }

  lemma PickCovers(rows: seq<Obs>, ks: seq<SymDay>, picked: seq<Obs>)
    requires forall k :: k in ks <==> HasKey(rows, k)
    requires |picked| == |ks| && forall j :: 0 <= j < |ks| ==> KeyOf(picked[j]) == ks[j]
    ensures forall i :: 0 <= i < |rows| ==> HasKey(picked, KeyOf(rows[i]))
  {
    forall i | 0 <= i < |rows| ensures HasKey(picked, KeyOf(rows[i])) {
      assert HasKey(rows, KeyOf(rows[i]));
      var j :| 0 <= j < |ks| && ks[j] == KeyOf(rows[i]);
      assert 0 <= j < |picked| && KeyOf(picked[j]) == KeyOf(rows[i]);
    }
  }

  /** `_pick_close_near_255_ct`: one row per (symbol, tradingDay) of the
      batch, in (symbol, tradingDay) order, each a row of the batch whose
      distance from 14:55 is minimal within its group. */
  function Pick(rows: seq<Obs>): (picked: seq<Obs>)
    ensures forall i, j :: 0 <= i < j < |picked| ==> SymDayLess(KeyOf(picked[i]), KeyOf(picked[j]))
    ensures forall i :: 0 <= i < |rows| ==> HasKey(picked, KeyOf(rows[i]))
    ensures forall j :: 0 <= j < |picked| ==> picked[j] in rows
    ensures forall j, i ::
      (0 <= j < |picked| && 0 <= i < |rows| && KeyOf(rows[i]) == KeyOf(picked[j])) ==> AbsDiff(picked[j]) <= AbsDiff(rows[i])
  {
    var ks := SortedKeys(rows);
    var picked := ClosestPerKey(rows, ks);
    PickCovers(rows, ks, picked);
    picked
  }

  /** Every row's symbol is null; true of an empty batch, as
      `is_null().all()` is. */
  predicate AllNull(rows: seq<RawRow>) {
    forall i :: 0 <= i < |rows| ==> rows[i].symbol.None?
  }

  function WithSymbol(r: RawRow, s: string): Obs {
    Obs(s, r.timestamp, r.tradingDay, r.close)
  }

  /** The symbols of a batch: when the column is all null every row gets the
      symbol inferred from the file name, and a name without one raises;
      otherwise a null symbol raises once its group reaches
      `contract_key_from_symbol`. */
  function ResolveSymbols(fileName: string, rows: seq<RawRow>): (r: Result<seq<Obs>, BuildError>)
    ensures r == Err(CannotInferSymbol(fileName)) <==> AllNull(rows) && InferSymbolFromFilename(fileName).None?
    ensures r == Err(NullSymbol(fileName)) <==> !AllNull(rows) && exists i :: 0 <= i < |rows| && rows[i].symbol.None?
    ensures r.Ok? ==> |r.value| == |rows|
    ensures r.Ok? ==> forall i :: 0 <= i < |rows| ==>
      r.value[i].timestamp == rows[i].timestamp && r.value[i].tradingDay == rows[i].tradingDay
      && r.value[i].close == rows[i].close
    ensures r.Ok? && AllNull(rows) ==> forall i :: 0 <= i < |rows| ==>
      Some(r.value[i].symbol) == InferSymbolFromFilename(fileName)
    ensures r.Ok? && !AllNull(rows) ==> forall i :: 0 <= i < |rows| ==> Some(r.value[i].symbol) == rows[i].symbol
  {
    if AllNull(rows) then
      match InferSymbolFromFilename(fileName)
      case None => Err(CannotInferSymbol(fileName))
      case Some(s) => Ok(seq(|rows|, i requires 0 <= i < |rows| => WithSymbol(rows[i], s)))
    else if exists i :: 0 <= i < |rows| && rows[i].symbol.None? then Err(NullSymbol(fileName))
    else Ok(seq(|rows|, i requires 0 <= i < |rows| => WithSymbol(rows[i], rows[i].symbol.value)))
  }

  /** A finished term-structure row: `symbol`, `tradingDay`, `ts_ct`,
      `close`, `expiry` and `ttm_days`. */
  datatype TermRow = TermRow(symbol: string, tradingDay: int, tsCt: int, close: real, expiry: CalendarDate, ttmDays: int)

  function ObsOf(r: TermRow): Obs {
    Obs(r.symbol, r.tsCt, r.tradingDay, r.close)
  }

  /** `contract_key_from_symbol` of each picked row. */
  function SymbolKeys(picked: seq<Obs>): (cks: seq<Result<ContractKey, string>>)
    ensures |cks| == |picked| && forall j :: 0 <= j < |picked| ==> cks[j] == ContractKeyFromSymbol(picked[j].symbol)
  {
    seq(|picked|, j requires 0 <= j < |picked| => ContractKeyFromSymbol(picked[j].symbol))
  }

  /** `expiries.get(ck)`. */
  function ExpiryOf(expiries: map<ContractKey, CalendarDate>, ck: ContractKey): Option<CalendarDate> {
    if ck in expiries then Some(expiries[ck]) else None
  }

  /** `(exp - d).days`, or null without an expiry. */
  function TtmOf(exp: Option<CalendarDate>, day: int): Option<int> {
    match exp
    case None => None
    case Some(e) => Some(Ordinal(e) - day)
  }

  /** The first picked row whose symbol does not resolve: the one whose
      `contract_key_from_symbol` raises. */
  function FirstUnresolved(cks: seq<Result<ContractKey, string>>): (r: Option<nat>)
    ensures r.Some? ==> r.value < |cks| && cks[r.value].Err? && forall j :: 0 <= j < r.value ==> cks[j].Ok?
    ensures r.None? ==> forall j :: 0 <= j < |cks| ==> cks[j].Ok?
    decreases |cks|
  {
    if cks == [] then None
    else if cks[0].Err? then Some(0)
    else
      match FirstUnresolved(cks[1..])
      case None => None
      case Some(i) => Some(i + 1)
  }

  /** The `expiry_dates` list. */
  function ExpiryList(expiries: map<ContractKey, CalendarDate>, cks: seq<Result<ContractKey, string>>): (exps: seq<Option<CalendarDate>>)
    requires forall j :: 0 <= j < |cks| ==> cks[j].Ok?
    ensures |exps| == |cks| && forall j :: 0 <= j < |cks| ==> exps[j] == ExpiryOf(expiries, cks[j].value)
  {
    seq(|cks|, j requires 0 <= j < |cks| && cks[j].Ok? => ExpiryOf(expiries, cks[j].value))
  }

  /** The `ttm_days` list. */
  function TtmList(picked: seq<Obs>, exps: seq<Option<CalendarDate>>): (ttms: seq<Option<int>>)
    requires |exps| == |picked|
    ensures |ttms| == |picked| && forall j :: 0 <= j < |picked| ==> ttms[j] == TtmOf(exps[j], picked[j].tradingDay)
  {
    seq(|picked|, j requires 0 <= j < |picked| => TtmOf(exps[j], picked[j].tradingDay))
  }

  function RowOf(o: Obs, expiry: CalendarDate, ttm: int): TermRow {
    TermRow(o.symbol, o.tradingDay, o.timestamp, o.close, expiry, ttm)
  }

  /** Row `j` survives the `ttm_days > 0` filter of `build`, as `r`. */
  predicate KeptAs(picked: seq<Obs>, exps: seq<Option<CalendarDate>>, ttms: seq<Option<int>>, j: nat, r: TermRow)
    requires j < |picked| && |exps| == |picked| && |ttms| == |picked|
  {
    exps[j].Some? && ttms[j].Some? && ttms[j].value > 0 && r == RowOf(picked[j], exps[j].value, ttms[j].value)
  }

  /** `with_columns(expiry, ttm_days).filter(ttm_days not null and > 0)`:
      exactly the rows with an expiry and a positive time to maturity. */
  function KeepPositive(picked: seq<Obs>, exps: seq<Option<CalendarDate>>, ttms: seq<Option<int>>): (kept: seq<TermRow>)
    requires |exps| == |picked| && |ttms| == |picked|
    ensures forall r :: r in kept <==> exists j :: 0 <= j < |picked| && KeptAs(picked, exps, ttms, j, r)
    decreases |picked|
  {
    if picked == [] then []
    else
      var n := |picked| - 1;
      var kept := KeepPositive(picked[..n], exps[..n], ttms[..n]);
      assert forall j, r :: 0 <= j < n ==> (KeptAs(picked[..n], exps[..n], ttms[..n], j, r) <==> KeptAs(picked, exps, ttms, j, r));
      if exps[n].Some? && ttms[n].Some? && ttms[n].value > 0 then
        var x := RowOf(picked[n], exps[n].value, ttms[n].value);
        assert KeptAs(picked, exps, ttms, n, x);
        assert forall r :: r in kept + [x] <==> r in kept || r == x;
        kept + [x]
      else
        assert forall r :: !KeptAs(picked, exps, ttms, n, r);
        kept
  }

  /** The rows a batch contributes, or the error its inner loop raises. */
  function Attach(expiries: map<ContractKey, CalendarDate>, picked: seq<Obs>): (r: Result<seq<TermRow>, BuildError>)
    ensures r.Err? <==> exists j :: 0 <= j < |picked| && ContractKeyFromSymbol(picked[j].symbol).Err?
    ensures r.Ok? ==> forall x :: x in r.value ==> ObsOf(x) in picked && x.ttmDays > 0
  {
    var cks := SymbolKeys(picked);
    match FirstUnresolved(cks)
    case Some(i) => Err(UnrecognizedSymbol(picked[i].symbol))
    case None =>
      var exps := ExpiryList(expiries, cks);
      Ok(KeepPositive(picked, exps, TtmList(picked, exps)))
  }

  /** One step of the inner loop: appending the expiry and
      the time to maturity of row `k` extends both lists by their next element. */
  lemma AttachStep(expiries: map<ContractKey, CalendarDate>, picked: seq<Obs>, cks: seq<Result<ContractKey, string>>,
                   es: seq<Option<CalendarDate>>, ts: seq<Option<int>>, k: nat)
    requires |cks| == |picked| && k < |cks| && |es| == k && |ts| == k && cks[k].Ok?
    requires forall j :: 0 <= j < k ==> cks[j].Ok? && es[j] == ExpiryOf(expiries, cks[j].value)
    requires forall j :: 0 <= j < k ==> ts[j] == TtmOf(es[j], picked[j].tradingDay)
    ensures var es' := es + [ExpiryOf(expiries, cks[k].value)];
      forall j :: 0 <= j < k + 1 ==> cks[j].Ok? && es'[j] == ExpiryOf(expiries, cks[j].value)
    ensures var es' := es + [ExpiryOf(expiries, cks[k].value)];
      var ts' := ts + [TtmOf(ExpiryOf(expiries, cks[k].value), picked[k].tradingDay)];
      forall j :: 0 <= j < k + 1 ==> ts'[j] == TtmOf(es'[j], picked[j].tradingDay)
  {
  }

  /** The inner loop of `build`: for each picked row resolve
      the contract key, look up its expiry and, when there is one, the whole
      days to it; then keep the rows with a positive time to maturity. */
  method AttachExpiries(expiries: map<ContractKey, CalendarDate>, picked: seq<Obs>) returns (r: Result<seq<TermRow>, BuildError>)
    ensures r == Attach(expiries, picked)
  {
    ghost var cks := SymbolKeys(picked);
    var expiryDates: seq<Option<CalendarDate>> := [];
    var ttmDays: seq<Option<int>> := [];
    var k := 0;
    while k < |picked|
      invariant 0 <= k <= |picked|
      invariant |expiryDates| == k && |ttmDays| == k
      invariant forall j :: 0 <= j < k ==> cks[j].Ok? && expiryDates[j] == ExpiryOf(expiries, cks[j].value)
      invariant forall j :: 0 <= j < k ==> ttmDays[j] == TtmOf(expiryDates[j], picked[j].tradingDay)
    {
      var ck := ContractKeyFromSymbol(picked[k].symbol);
      assert ck == cks[k];
      if ck.Err? {
        AttachFirstError(expiries, picked, cks, k);
        return Err(UnrecognizedSymbol(picked[k].symbol));
      }
      var exp := ExpiryOf(expiries, ck.value);
      AttachStep(expiries, picked, cks, expiryDates, ttmDays, k);
      expiryDates := expiryDates + [exp];
      ttmDays := ttmDays + [TtmOf(exp, picked[k].tradingDay)];
      k := k + 1;
    }
    AttachAllResolved(expiries, picked, cks, expiryDates, ttmDays);
    return Ok(KeepPositive(picked, expiryDates, ttmDays));
  }

  /** The loop stops at the first row whose symbol does not resolve. */
  lemma AttachFirstError(expiries: map<ContractKey, CalendarDate>, picked: seq<Obs>, cks: seq<Result<ContractKey, string>>, k: nat)
    requires cks == SymbolKeys(picked) && k < |cks| && cks[k].Err?
    requires forall j :: 0 <= j < k ==> cks[j].Ok?
    ensures Attach(expiries, picked) == Err(UnrecognizedSymbol(picked[k].symbol))
  {
    FirstUnresolvedAtK(cks, k);
  }

  lemma {:induction false} FirstUnresolvedAtK(cks: seq<Result<ContractKey, string>>, k: nat)
    requires k < |cks| && cks[k].Err? && forall j :: 0 <= j < k ==> cks[j].Ok?
    ensures FirstUnresolved(cks) == Some(k)
    decreases k
  {
    if k > 0 {
      FirstUnresolvedAtK(cks[1..], k - 1);
    }
  }

  /** When every symbol resolves, the lists the loop built are those of
      `Attach`. */
  lemma AttachAllResolved(expiries: map<ContractKey, CalendarDate>, picked: seq<Obs>, cks: seq<Result<ContractKey, string>>,
                          es: seq<Option<CalendarDate>>, ts: seq<Option<int>>)
    requires cks == SymbolKeys(picked) && |es| == |picked| && |ts| == |picked|
    requires forall j :: 0 <= j < |picked| ==> cks[j].Ok? && es[j] == ExpiryOf(expiries, cks[j].value)
    requires forall j :: 0 <= j < |picked| ==> ts[j] == TtmOf(es[j], picked[j].tradingDay)
    ensures Attach(expiries, picked) == Ok(KeepPositive(picked, es, ts))
  {
    assert FirstUnresolved(cks).None?;
    assert es == ExpiryList(expiries, cks);
    assert ts == TtmList(picked, es);
  }

  /** A finished row that agrees with the calendar: its symbol resolves to a
      key with an expiry, it carries that expiry, and its time to maturity is
      the positive number of days from its trading day to the expiry. */
  predicate Dated(expiries: map<ContractKey, CalendarDate>, r: TermRow) {
    var ck := ContractKeyFromSymbol(r.symbol);
    ck.Ok? && ck.value in expiries && r.expiry == expiries[ck.value]
    && r.ttmDays == Ordinal(r.expiry) - r.tradingDay && r.ttmDays > 0
  }

  /** Row `j` is the first picked row whose symbol does not resolve. */
  predicate FirstUnresolvedAt(picked: seq<Obs>, j: int) {
    0 <= j < |picked| && ContractKeyFromSymbol(picked[j].symbol).Err?
    && forall i :: 0 <= i < j ==> ContractKeyFromSymbol(picked[i].symbol).Ok?
  }

  predicate AllDated(expiries: map<ContractKey, CalendarDate>, rows: seq<TermRow>) {
    forall r :: r in rows ==> Dated(expiries, r)
  }

  /** The inner loop raises exactly when some picked symbol does not
      resolve, and then names the first such row's symbol. */
  lemma AttachFails(expiries: map<ContractKey, CalendarDate>, picked: seq<Obs>)
    ensures Attach(expiries, picked).Err? <==> exists j :: 0 <= j < |picked| && ContractKeyFromSymbol(picked[j].symbol).Err?
    ensures Attach(expiries, picked).Err? ==>
      exists j :: FirstUnresolvedAt(picked, j) && Attach(expiries, picked).error == UnrecognizedSymbol(picked[j].symbol)
  {
    var cks := SymbolKeys(picked);
    match FirstUnresolved(cks)
    case Some(i) =>
      assert FirstUnresolvedAt(picked, i);
    case None =>
  }

  /** The rows a batch contributes are exactly its picked rows that agree
      with the calendar: each row keeps its picked observation, and a picked
      row is kept iff its contract has an expiry after its trading day. */
  lemma AttachRows(expiries: map<ContractKey, CalendarDate>, picked: seq<Obs>)
    requires Attach(expiries, picked).Ok?
    ensures forall r :: r in Attach(expiries, picked).value <==> Dated(expiries, r) && ObsOf(r) in picked
  {
    var cks := SymbolKeys(picked);
    assert FirstUnresolved(cks).None?;
    var exps := ExpiryList(expiries, cks);
    var ttms := TtmList(picked, exps);
    var rows := KeepPositive(picked, exps, ttms);
    forall r ensures r in rows <==> Dated(expiries, r) && ObsOf(r) in picked {
      if r in rows {
        var j :| 0 <= j < |picked| && KeptAs(picked, exps, ttms, j, r);
        KeptIsDated(expiries, picked, cks, exps, ttms, j, r);
      }
      if Dated(expiries, r) && ObsOf(r) in picked {
        var j :| 0 <= j < |picked| && picked[j] == ObsOf(r);
        DatedIsKept(expiries, picked, cks, exps, ttms, j, r);
      }
    }
  }

  lemma KeptIsDated(expiries: map<ContractKey, CalendarDate>, picked: seq<Obs>, cks: seq<Result<ContractKey, string>>,
                    exps: seq<Option<CalendarDate>>, ttms: seq<Option<int>>, j: nat, r: TermRow)
    requires |cks| == |picked| && |exps| == |picked| && |ttms| == |picked| && j < |picked|
    requires cks[j] == ContractKeyFromSymbol(picked[j].symbol) && cks[j].Ok?
    requires exps[j] == ExpiryOf(expiries, cks[j].value) && ttms[j] == TtmOf(exps[j], picked[j].tradingDay)
    requires KeptAs(picked, exps, ttms, j, r)
    ensures Dated(expiries, r) && ObsOf(r) == picked[j]
  {
  }

  lemma DatedIsKept(expiries: map<ContractKey, CalendarDate>, picked: seq<Obs>, cks: seq<Result<ContractKey, string>>,
                    exps: seq<Option<CalendarDate>>, ttms: seq<Option<int>>, j: nat, r: TermRow)
    requires |cks| == |picked| && |exps| == |picked| && |ttms| == |picked| && j < |picked|
    requires cks[j] == ContractKeyFromSymbol(picked[j].symbol) && cks[j].Ok?
    requires exps[j] == ExpiryOf(expiries, cks[j].value) && ttms[j] == TtmOf(exps[j], picked[j].tradingDay)
    requires Dated(expiries, r) && ObsOf(r) == picked[j]
    ensures KeptAs(picked, exps, ttms, j, r)
  {
  }

  // ---------------------------------------------------------------------
  // De-duplication: `unique(subset=["symbol", "tradingDay"], keep="first")`

  function RowKey(r: TermRow): SymDay {
    SymDay(r.symbol, r.tradingDay)
  }

  predicate KeyIn(rows: seq<TermRow>, k: SymDay) {
    exists i :: 0 <= i < |rows| && RowKey(rows[i]) == k
  }

  /** No two rows share a (symbol, tradingDay). */
  predicate UniqueKeys(rows: seq<TermRow>) {
    forall i, j :: 0 <= i < j < |rows| ==> RowKey(rows[i]) != RowKey(rows[j])
  }

  /** Row `i` is the first row of its key. */
  predicate FirstOfKey(rows: seq<TermRow>, i: int) {
    0 <= i < |rows| && forall j :: 0 <= j < i ==> RowKey(rows[j]) != RowKey(rows[i])
  }

  predicate IsFirst(rows: seq<TermRow>, r: TermRow) {
    exists i :: 0 <= i < |rows| && FirstOfKey(rows, i) && rows[i] == r
  }

  lemma FirstOfKeySnoc(init: seq<TermRow>, x: TermRow)
    ensures forall i :: 0 <= i < |init| ==> (FirstOfKey(init + [x], i) <==> FirstOfKey(init, i))
    ensures FirstOfKey(init + [x], |init|) <==> !KeyIn(init, RowKey(x))
    ensures forall r :: IsFirst(init + [x], r) <==> IsFirst(init, r) || (r == x && !KeyIn(init, RowKey(x)))
    ensures forall k :: KeyIn(init + [x], k) <==> KeyIn(init, k) || k == RowKey(x)
  {
    var rows := init + [x];
    assert forall i :: 0 <= i < |init| ==> rows[i] == init[i];
    forall r | IsFirst(rows, r) ensures IsFirst(init, r) || (r == x && !KeyIn(init, RowKey(x))) {
      var i :| 0 <= i < |rows| && FirstOfKey(rows, i) && rows[i] == r;
      if i < |init| {
        assert FirstOfKey(init, i) && init[i] == r;
      }
    }
    forall r | IsFirst(init, r) ensures IsFirst(rows, r) {
      var i :| 0 <= i < |init| && FirstOfKey(init, i) && init[i] == r;
      assert FirstOfKey(rows, i) && rows[i] == r;
    }
    if !KeyIn(init, RowKey(x)) {
      assert FirstOfKey(rows, |init|) && rows[|init|] == x;
    }
    forall k | KeyIn(rows, k) && k != RowKey(x) ensures KeyIn(init, k) {
      var i :| 0 <= i < |rows| && RowKey(rows[i]) == k;
      assert i < |init| && init[i] == rows[i];
    }
    assert RowKey(rows[|init|]) == RowKey(x);
  }

  /** The first row of every key, and nothing else. */
  function FirstPerKey(rows: seq<TermRow>): (out: seq<TermRow>)
    ensures UniqueKeys(out)
    ensures forall r :: r in out <==> IsFirst(rows, r)
    ensures forall k :: KeyIn(out, k) <==> KeyIn(rows, k)
    decreases |rows|
  {
    if rows == [] then []
    else
      var n := |rows| - 1;
      var init := rows[..n];
      var out := FirstPerKey(init);
      assert rows == init + [rows[n]];
      FirstOfKeySnoc(init, rows[n]);
      if KeyIn(out, RowKey(rows[n])) then out
      else
        FirstOfKeySnoc(out, rows[n]);
        assert UniqueKeys(out + [rows[n]]) by {
          var out' := out + [rows[n]];
          forall i | 0 <= i < |out| ensures RowKey(out'[i]) != RowKey(rows[n]) {
            assert out'[i] == out[i];
          }
        }
        out + [rows[n]]
  }

  // ---------------------------------------------------------------------
  // Final order: `sort(["tradingDay", "ttm_days", "symbol"])`

  predicate TermLess(a: TermRow, b: TermRow) {
    a.tradingDay < b.tradingDay
    || (a.tradingDay == b.tradingDay && a.ttmDays < b.ttmDays)
    || (a.tradingDay == b.tradingDay && a.ttmDays == b.ttmDays && StrLess(a.symbol, b.symbol))
  }

  /** Two rows with the same sort key. */
  predicate SameSortKey(a: TermRow, b: TermRow) {
    a.tradingDay == b.tradingDay && a.ttmDays == b.ttmDays && a.symbol == b.symbol
  }

  lemma TermLessIrreflexive(a: TermRow)
    ensures !TermLess(a, a)
  {
    StrLessIrreflexive(a.symbol);
  }

  lemma TermLessTransitive(a: TermRow, b: TermRow, c: TermRow)
    requires TermLess(a, b) && TermLess(b, c)
    ensures TermLess(a, c)
  {
    if StrLess(a.symbol, b.symbol) && StrLess(b.symbol, c.symbol) {
      StrLessTransitive(a.symbol, b.symbol, c.symbol);
    }
  }

  lemma TermLessAsymmetric(a: TermRow, b: TermRow)
    requires TermLess(a, b)
    ensures !TermLess(b, a)
  {
    if TermLess(b, a) {
      TermLessTransitive(a, b, a);
      TermLessIrreflexive(a);
    }
  }

  lemma TermLessTotal(a: TermRow, b: TermRow)
    requires !SameSortKey(a, b)
    ensures TermLess(a, b) || TermLess(b, a)
  {
    if a.tradingDay == b.tradingDay && a.ttmDays == b.ttmDays {
      StrLessTotal(a.symbol, b.symbol);
    }
  }

  /** "Not after" is transitive. */
  lemma NotLessTransitive(a: TermRow, b: TermRow, c: TermRow)
    requires !TermLess(b, a) && !TermLess(c, b)
    ensures !TermLess(c, a)
  {
    if !SameSortKey(a, b) {
      TermLessTotal(a, b);
      if TermLess(c, a) {
        TermLessTransitive(c, a, b);
      }
    }
  }

  /** Ascending in the sort key; rows that tie may come in either order. */
  predicate Sorted(s: seq<TermRow>) {
    forall i, j :: 0 <= i < j < |s| ==> !TermLess(s[j], s[i])
  }

  function InsertTerm(s: seq<TermRow>, x: TermRow): (r: seq<TermRow>)
    requires Sorted(s)
    ensures Sorted(r)
    ensures multiset(r) == multiset(s) + multiset{x}
    ensures UniqueKeys(s) && !KeyIn(s, RowKey(x)) ==> UniqueKeys(r)
    decreases |s|
  {
    if s == [] then [x]
    else if !TermLess(s[0], x) then
      InsertFront(s, x);
      [x] + s
    else
      TailSorted(s, x);
      var rest := InsertTerm(s[1..], x);
      InsertBehind(s, x, rest);
      [s[0]] + rest
  }

  lemma InsertFront(s: seq<TermRow>, x: TermRow)
    requires Sorted(s) && s != [] && !TermLess(s[0], x)
    ensures Sorted([x] + s)
    ensures UniqueKeys(s) && !KeyIn(s, RowKey(x)) ==> UniqueKeys([x] + s)
  {
    forall j | 0 < j < |s| ensures !TermLess(s[j], x) {
      NotLessTransitive(x, s[0], s[j]);
    }
    var r := [x] + s;
    assert forall j :: 0 < j < |r| ==> r[j] == s[j - 1];
  }

  lemma TailSorted(s: seq<TermRow>, x: TermRow)
    requires Sorted(s) && s != []
    ensures Sorted(s[1..])
    ensures UniqueKeys(s) && !KeyIn(s, RowKey(x)) ==> UniqueKeys(s[1..]) && !KeyIn(s[1..], RowKey(x))
  {
    assert forall i :: 0 <= i < |s| - 1 ==> s[1..][i] == s[i + 1];
  }

  lemma InsertBehind(s: seq<TermRow>, x: TermRow, rest: seq<TermRow>)
    requires Sorted(s) && s != [] && TermLess(s[0], x)
    requires Sorted(rest) && multiset(rest) == multiset(s[1..]) + multiset{x}
    requires UniqueKeys(s[1..]) && !KeyIn(s[1..], RowKey(x)) ==> UniqueKeys(rest)
    ensures Sorted([s[0]] + rest)
    ensures multiset([s[0]] + rest) == multiset(s) + multiset{x}
    ensures UniqueKeys(s) && !KeyIn(s, RowKey(x)) ==> UniqueKeys([s[0]] + rest)
  {
    assert s == [s[0]] + s[1..];
    TermLessAsymmetric(s[0], x);
    assert forall y :: y in rest ==> y in s[1..] || y == x by {
      forall y | y in rest ensures y in s[1..] || y == x {
        assert y in multiset(rest);
      }
    }
    var r := [s[0]] + rest;
    forall i, j | 0 <= i < j < |r| ensures !TermLess(r[j], r[i]) {
      if i > 0 {
        assert r[i] == rest[i - 1] && r[j] == rest[j - 1];
      } else {
        assert r[j] == rest[j - 1] && rest[j - 1] in rest;
      }
    }
    if UniqueKeys(s) && !KeyIn(s, RowKey(x)) {
      TailSorted(s, x);
      ConsUnique(s, x, rest);
    }
  }

  /** The head of a list with unique keys, put in front of the rest
      with a new row inserted, keeps the keys unique. */
  lemma ConsUnique(s: seq<TermRow>, x: TermRow, rest: seq<TermRow>)
    requires s != [] && UniqueKeys(s) && !KeyIn(s, RowKey(x)) && UniqueKeys(rest)
    requires forall y :: y in rest ==> y in s[1..] || y == x
    ensures UniqueKeys([s[0]] + rest)
  {
    forall y | y in rest ensures RowKey(y) != RowKey(s[0]) {
      if y in s[1..] {
        var i :| 0 <= i < |s| - 1 && s[1..][i] == y;
        assert s[i + 1] == y;
      } else {
        assert RowKey(s[0]) != RowKey(x);
      }
    }
    var r := [s[0]] + rest;
    forall i, j | 0 <= i < j < |r| ensures RowKey(r[i]) != RowKey(r[j]) {
      if i == 0 {
        assert r[j] == rest[j - 1] && rest[j - 1] in rest;
      } else {
        assert r[i] == rest[i - 1] && r[j] == rest[j - 1];
      }
    }
  }

  /** The permutation of the rows into ascending key order. */
  function SortTerm(s: seq<TermRow>): (r: seq<TermRow>)
    ensures Sorted(r)
    ensures multiset(r) == multiset(s)
    ensures UniqueKeys(s) ==> UniqueKeys(r)
    decreases |s|
  {
    if s == [] then []
    else
      var n := |s| - 1;
      assert s == s[..n] + [s[n]];
      var init := SortTerm(s[..n]);
      assert UniqueKeys(s) ==> UniqueKeys(s[..n]) && !KeyIn(init, RowKey(s[n])) by {
        if UniqueKeys(s) {
          forall i | 0 <= i < |init| ensures RowKey(init[i]) != RowKey(s[n]) {
            assert init[i] in multiset(s[..n]);
            var a :| 0 <= a < n && s[..n][a] == init[i];
            assert s[a] == init[i];
          }
        }
      }
      InsertTerm(init, s[n])
  }

  /** With one row per (symbol, tradingDay) the order is strict: no two rows
      tie on (tradingDay, ttm_days, symbol). */
  lemma SortedStrict(s: seq<TermRow>)
    requires Sorted(s) && UniqueKeys(s)
    ensures forall i, j :: 0 <= i < j < |s| ==> TermLess(s[i], s[j])
  {
    forall i, j | 0 <= i < j < |s| ensures TermLess(s[i], s[j]) {
      assert RowKey(s[i]) != RowKey(s[j]);
      TermLessTotal(s[i], s[j]);
    }
  }

  // ---------------------------------------------------------------------
  // The whole build

  /** The errors raised while a file is processed. */
  predicate FileError(e: BuildError) {
    e.CannotInferSymbol? || e.NullSymbol? || e.UnrecognizedSymbol?
  }

  /** What one CSV file contributes: nothing when it is skipped, its kept
      rows, or the error that stops the build. */
  function BatchRows(expiries: map<ContractKey, CalendarDate>, b: Batch): (r: Result<Option<seq<TermRow>>, BuildError>)
    ensures r.Ok? && r.value.Some? ==> AllDated(expiries, r.value.value)
    ensures r.Err? ==> FileError(r.error)
  {
    match b
    case Unreadable(_) => Ok(None)
    case Loaded(fileName, rows) =>
      match ResolveSymbols(fileName, rows)
      case Err(e) => Err(e)
      case Ok(obs) =>
        var picked := Pick(obs);
        match Attach(expiries, picked)
        case Err(e) => Err(e)
        case Ok(kept) =>
          AttachRows(expiries, picked);
          Ok(Some(kept))
  }

  /** One turn of the loop over files, given what the file contributes:
      stop at an error, skip a file that contributes nothing, or append its
      frame. */
  function CollectStep(expiries: map<ContractKey, CalendarDate>, acc: Result<seq<seq<TermRow>>, BuildError>,
                       out: Result<Option<seq<TermRow>>, BuildError>): (r: Result<seq<seq<TermRow>>, BuildError>)
    requires acc.Ok? ==> forall i :: 0 <= i < |acc.value| ==> AllDated(expiries, acc.value[i])
    requires out.Ok? && out.value.Some? ==> AllDated(expiries, out.value.value)
    requires acc.Err? ==> FileError(acc.error)
    requires out.Err? ==> FileError(out.error)
    ensures r.Ok? ==> forall i :: 0 <= i < |r.value| ==> AllDated(expiries, r.value[i])
    ensures r.Err? ==> FileError(r.error)
  {
    match acc
    case Err(e) => Err(e)
    case Ok(fs) =>
      match out
      case Err(e) => Err(e)
      case Ok(None) => Ok(fs)
      case Ok(Some(kept)) =>
        assert forall i :: 0 <= i < |fs| ==> (fs + [kept])[i] == fs[i];
        Ok(fs + [kept])
  }

  /** The `frames` list after the files of `bs`, or the first error.  Every
      collected row agrees with the calendar. */
  function CollectFrames(expiries: map<ContractKey, CalendarDate>, bs: seq<Batch>): (r: Result<seq<seq<TermRow>>, BuildError>)
    ensures r.Ok? ==> forall i :: 0 <= i < |r.value| ==> AllDated(expiries, r.value[i])
    ensures r.Err? ==> FileError(r.error)
    decreases |bs|
  {
    if bs == [] then Ok([])
    else CollectStep(expiries, CollectFrames(expiries, bs[..|bs| - 1]), BatchRows(expiries, bs[|bs| - 1]))
  }

  lemma {:induction false} CollectErrSticks(expiries: map<ContractKey, CalendarDate>, bs: seq<Batch>, i: nat)
    requires i <= |bs| && CollectFrames(expiries, bs[..i]).Err?
    ensures CollectFrames(expiries, bs) == CollectFrames(expiries, bs[..i])
    decreases |bs| - i
  {
    if i < |bs| {
      assert bs[..i + 1][..i] == bs[..i];
      CollectErrSticks(expiries, bs, i + 1);
    } else {
      assert bs[..i] == bs;
    }
  }

  /** `pl.concat(frames, how="vertical")`. */
  function Flatten(fs: seq<seq<TermRow>>): (rows: seq<TermRow>)
    ensures forall r :: r in rows <==> exists i :: 0 <= i < |fs| && r in fs[i]
    decreases |fs|
  {
    if fs == [] then []
    else
      var n := |fs| - 1;
      assert forall i :: 0 <= i < n ==> fs[..n][i] == fs[i];
      Flatten(fs[..n]) + fs[n]
  }

  /** `build`: parse the calendar, refuse an empty file list, collect the
      frames of the files in sorted path order, refuse to concatenate no
      frame at all, then keep the first row of every (symbol, tradingDay)
      and sort. */
  function BuildSpec(expiryLines: seq<string>, batches: seq<Batch>): (r: Result<seq<TermRow>, BuildError>)
    ensures r.Ok? ==> UniqueKeys(r.value)
    ensures r.Ok? ==> forall i, j :: 0 <= i < j < |r.value| ==> TermLess(r.value[i], r.value[j])
    ensures r.Ok? ==> forall x :: x in r.value ==> x.ttmDays > 0
  {
    match ExpiryCalendar(expiryLines)
    case Err(line) => Err(ExpiryLineUnparsable(line))
    case Ok(expiries) =>
      if batches == [] then Err(NoCsvFiles)
      else
        match CollectFrames(expiries, batches)
        case Err(e) => Err(e)
        case Ok(fs) =>
          if fs == [] then Err(NothingToConcat)
          else
            FinishRows(expiries, fs);
            Ok(Finish(fs))
  }

  /** `TermStructureBuilder.build` over the expiry file's lines and the CSV
      files in sorted path order. */
  method Build(expiryLines: seq<string>, batches: seq<Batch>) returns (r: Result<seq<TermRow>, BuildError>)
    ensures r == BuildSpec(expiryLines, batches)
  {
    var calendar := ParseExpiryFile(expiryLines);
    if calendar.Err? {
      return Err(ExpiryLineUnparsable(calendar.error));
    }
    var expiries := calendar.value;
    if |batches| == 0 {
      return Err(NoCsvFiles);
    }
    var frames: seq<seq<TermRow>> := [];
    var i := 0;
    while i < |batches|
      invariant 0 <= i <= |batches|
      invariant CollectFrames(expiries, batches[..i]) == Ok(frames)
    {
      assert batches[..i + 1][..i] == batches[..i];
      var b := batches[i];
      if b.Loaded? {
        var obs := ResolveSymbols(b.fileName, b.rows);
        if obs.Err? {
          CollectErrSticks(expiries, batches, i + 1);
          return Err(obs.error);
        }
        var picked := Pick(obs.value);
        var kept := AttachExpiries(expiries, picked);
        if kept.Err? {
          CollectErrSticks(expiries, batches, i + 1);
          return Err(kept.error);
        }
        frames := frames + [kept.value];
      }
      i := i + 1;
    }
    assert batches[..i] == batches;
    if |frames| == 0 {
      return Err(NothingToConcat);
    }
    var unique := FirstPerKey(Flatten(frames));
    r := Ok(SortTerm(unique));
  }

  /** The rows `build` returns for the collected frames `fs`. */
  function Finish(fs: seq<seq<TermRow>>): seq<TermRow> {
    SortTerm(FirstPerKey(Flatten(fs)))
  }

  /** De-duplicating and sorting rows that agree with the calendar gives
      rows that still agree with it, at most one per (symbol, tradingDay),
      strictly ascending in (tradingDay, ttm_days, symbol), and exactly the
      first row of each key in concatenation order. */
  lemma FinishRows(expiries: map<ContractKey, CalendarDate>, fs: seq<seq<TermRow>>)
    requires forall i :: 0 <= i < |fs| ==> AllDated(expiries, fs[i])
    ensures AllDated(expiries, Finish(fs))
    ensures UniqueKeys(Finish(fs))
    ensures forall i, j :: 0 <= i < j < |Finish(fs)| ==> TermLess(Finish(fs)[i], Finish(fs)[j])
    ensures forall r :: r in Finish(fs) <==> IsFirst(Flatten(fs), r)
  {
    var all := Flatten(fs);
    var unique := FirstPerKey(all);
    var rows := SortTerm(unique);
    forall r ensures r in rows <==> r in unique {
      assert r in rows <==> r in multiset(unique);
    }
    forall r | r in rows ensures Dated(expiries, r) {
      assert r in unique;
      var i :| 0 <= i < |all| && FirstOfKey(all, i) && all[i] == r;
      assert r in all;
      var k :| 0 <= k < |fs| && r in fs[k];
      assert AllDated(expiries, fs[k]);
    }
    SortedStrict(rows);
  }

  /** A file whose columns cannot be read is skipped: the build goes on as
      if it were not there. */
  lemma {:induction false} SkipUnreadable(expiries: map<ContractKey, CalendarDate>, a: seq<Batch>, name: string, b: seq<Batch>)
    ensures CollectFrames(expiries, a + [Unreadable(name)] + b) == CollectFrames(expiries, a + b)
    decreases |b|
  {
    if b == [] {
      assert a + [Unreadable(name)] + b == a + [Unreadable(name)];
      assert (a + [Unreadable(name)])[..|a|] == a;
      assert a + b == a;
    } else {
      var n := |b| - 1;
      var left := a + [Unreadable(name)] + b;
      var right := a + b;
      assert left[..|left| - 1] == a + [Unreadable(name)] + b[..n];
      assert right[..|right| - 1] == a + b[..n];
      assert left[|left| - 1] == b[n] == right[|right| - 1];
      SkipUnreadable(expiries, a, name, b[..n]);
      assert CollectFrames(expiries, left) == CollectStep(expiries, CollectFrames(expiries, left[..|left| - 1]), BatchRows(expiries, b[n]));
      assert CollectFrames(expiries, right) == CollectStep(expiries, CollectFrames(expiries, right[..|right| - 1]), BatchRows(expiries, b[n]));
    }
  }

  /** Files that are all skipped leave nothing to concatenate. */
  lemma {:induction false} AllUnreadable(expiries: map<ContractKey, CalendarDate>, bs: seq<Batch>)
    requires forall i :: 0 <= i < |bs| ==> bs[i].Unreadable?
    ensures CollectFrames(expiries, bs) == Ok([])
    decreases |bs|
  {
    if bs != [] {
      AllUnreadable(expiries, bs[..|bs| - 1]);
    }
  }

  /** An unparsable expiry line stops the build before any file is
      looked at. */
  lemma BuildCalendarError(expiryLines: seq<string>, batches: seq<Batch>)
    requires ExpiryCalendar(expiryLines).Err?
    ensures BuildSpec(expiryLines, batches) == Err(ExpiryLineUnparsable(ExpiryCalendar(expiryLines).error))
  {
  }

  /** With a readable calendar, the build reports missing CSV files exactly
      when the file list is empty. */
  lemma BuildNoFiles(expiryLines: seq<string>, batches: seq<Batch>)
    requires ExpiryCalendar(expiryLines).Ok?
    ensures BuildSpec(expiryLines, batches) == Err(NoCsvFiles) <==> batches == []
  {
    var expiries := ExpiryCalendar(expiryLines).value;
    if batches != [] {
      var c := CollectFrames(expiries, batches);
      assert c.Err? ==> FileError(c.error);
    }
  }

  /** When every file is skipped there is nothing to concatenate. */
  lemma BuildAllSkipped(expiryLines: seq<string>, batches: seq<Batch>)
    requires ExpiryCalendar(expiryLines).Ok? && batches != []
    requires forall i :: 0 <= i < |batches| ==> batches[i].Unreadable?
    ensures BuildSpec(expiryLines, batches) == Err(NothingToConcat)
  {
    AllUnreadable(ExpiryCalendar(expiryLines).value, batches);
  }

  /** A file whose symbol column is all null takes the symbol in its name;
      when there is one, the file cannot fail on an unrecognized symbol and
      every row it contributes carries that symbol. */
  lemma InferredBatch(expiries: map<ContractKey, CalendarDate>, fileName: string, rows: seq<RawRow>)
    requires AllNull(rows) && FilenameReSearch(fileName, 0).Some?
    ensures InferSymbolFromFilename(fileName).Some?
    ensures BatchRows(expiries, Loaded(fileName, rows)).Ok?
    ensures BatchRows(expiries, Loaded(fileName, rows)).value.Some?
    ensures forall r :: r in BatchRows(expiries, Loaded(fileName, rows)).value.value ==>
      r.symbol == InferSymbolFromFilename(fileName).value
  {
    InferThenResolve(fileName);
    var sym := InferSymbolFromFilename(fileName).value;
    var obs := ResolveSymbols(fileName, rows).value;
    var picked := Pick(obs);
    OneSymbol(obs, sym);
    AttachOneSymbol(expiries, picked, sym);
    assert BatchRows(expiries, Loaded(fileName, rows)) == Ok(Some(Attach(expiries, picked).value));
  }

  lemma OneSymbol(obs: seq<Obs>, sym: string)
    requires forall i :: 0 <= i < |obs| ==> obs[i].symbol == sym
    ensures forall j :: 0 <= j < |Pick(obs)| ==> Pick(obs)[j].symbol == sym
  {
    var picked := Pick(obs);
    forall j | 0 <= j < |picked| ensures picked[j].symbol == sym {
      var i :| 0 <= i < |obs| && obs[i] == picked[j];
    }
  }

  lemma AttachOneSymbol(expiries: map<ContractKey, CalendarDate>, picked: seq<Obs>, sym: string)
    requires ContractKeyFromSymbol(sym).Ok?
    requires forall j :: 0 <= j < |picked| ==> picked[j].symbol == sym
    ensures Attach(expiries, picked).Ok?
    ensures forall r :: r in Attach(expiries, picked).value ==> r.symbol == sym
  {
    AttachFails(expiries, picked);
    AttachRows(expiries, picked);
    forall r | r in Attach(expiries, picked).value ensures r.symbol == sym {
      var j :| 0 <= j < |picked| && picked[j] == ObsOf(r);
    }
  }
}
