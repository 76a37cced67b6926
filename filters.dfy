/** The per-column filter engine of the corporate-bond (ON) tables: bond
    rows merged with their characteristics, one filter string per column
    interpreted by the column's type (numbers with operators and ranges,
    dd/mm/yyyy dates and date ranges, case-insensitive text), the result
    ordered by maturity, and the days slider. */
module ColumnFilter {
  import opened Common

  /** A cell of a dynamic row; a key missing from the row is `undefined`. */
  datatype Cell = Null | Num(x: real) | Str(s: string)

  type Row = map<string, Cell>

  datatype ColType = TextCol | DateCol | NumberCol(percent: bool)

  /** The date and number services the filters call: the local day of a
      cell's date string (None for an invalid date), the local day of
      `new Date(year, month - 1, day)`, `String(number)`, and the
      timestamp the table is ordered by. */
  datatype Env = Env(cellDay: string -> Option<int>, dateOf: (int, int, int) -> int,
                     showNum: real -> string, timeOf: string -> int)

  // ---------------------------------------------------------------------
  // Reading numbers

  predicate AllDigits(s: string) { forall i :: 0 <= i < |s| ==> IsDigit(s[i]) }

  function Digit(c: char): nat
    requires IsDigit(c)
  {
    c as int - '0' as int
  }

  function DigitsValue(s: string): nat
    requires AllDigits(s)
    decreases |s|
  {
    if s == [] then 0 else 10 * DigitsValue(s[..|s| - 1]) + Digit(s[|s| - 1])
  }

  /** The value of fraction digits: `0.d1d2...`. */
  function FractionValue(s: string): real
    requires AllDigits(s)
    decreases |s|
  {
    if s == [] then 0.0 else (Digit(s[0]) as real + FractionValue(s[1..])) / 10.0
  }

  /** The length of the leading run of digits. */
  function DigitRun(s: string): (n: nat)
    ensures n <= |s| && AllDigits(s[..n]) && (n < |s| ==> !IsDigit(s[n]))
  {
    if s == [] || !IsDigit(s[0]) then 0
    else
      var n := 1 + DigitRun(s[1..]);
      assert forall i :: 1 <= i < n ==> s[..n][i] == s[1..][..n - 1][i - 1];
      n
  }

  lemma DigitRunAll(s: string)
    requires AllDigits(s)
    ensures DigitRun(s) == |s|
  {
  }

  lemma {:induction false} DigitRunPrefix(a: string, rest: string)
    requires AllDigits(a)
    requires rest == [] || !IsDigit(rest[0])
    ensures DigitRun(a + rest) == |a|
    decreases |a|
  {
    if a != [] {
      DigitRunPrefix(a[1..], rest);
      assert (a + rest)[1..] == a[1..] + rest;
    }
  }

  /** Integer digits and fraction digits as a decimal value. */
  function Decimal(intPart: string, frac: string): real
    requires AllDigits(intPart) && AllDigits(frac)
  {
    DigitsValue(intPart) as real + FractionValue(frac)
  }

  /** The fraction digits after a leading point, if any. */
  function FracDigits(rest: string): (f: string)
    ensures AllDigits(f)
  {
    if rest != [] && rest[0] == '.' then rest[1..][..DigitRun(rest[1..])] else ""
  }

  /** `parseFloat`: leading white space, an optional sign, digits with an
      optional fraction; NaN (None) when no digit is there. */
  function ParseFloat(s: string): Option<real> {
    var t := TrimStart(s);
    var neg := t != [] && t[0] == '-';
    var u := if t != [] && (t[0] == '+' || t[0] == '-') then t[1..] else t;
    var n := DigitRun(u);
    var f := FracDigits(u[n..]);
    if n == 0 && f == [] then None
    else
      var mag := Decimal(u[..n], f);
      Some(if neg then -mag else mag)
  }

  /** `Number(s)` on a date part: white space trimmed, the empty string is
      0, a run of digits its value, anything else NaN (None). */
  function JsNumber(s: string): Option<int> {
    var t := Trim(s);
    if t == "" then Some(0)
    else if AllDigits(t) then Some(DigitsValue(t))
    else None
  }

  /** Digits with at most one point and at least one digit, as `Number`
      reads them after the sign. */
  function UnsignedDecimal(u: string): Option<real> {
    var n := DigitRun(u);
    var rest := u[n..];
    if u == [] then None
    else if rest == [] then Some(Decimal(u, ""))
    else if rest[0] == '.' && AllDigits(rest[1..]) && (n > 0 || |rest| > 1) then
      Some(Decimal(u[..n], rest[1..]))
    else None
  }

  /** `Number(s)` on a decimal string: trimmed; empty is 0; an optional
      sign, then digits with an optional point and fraction, give their
      value; anything else, a comma included, is NaN (None). */
  function JsDecimal(s: string): Option<real> {
    var t := Trim(s);
    if t == "" then Some(0.0)
    else
      var mag := UnsignedDecimal(if t[0] == '+' || t[0] == '-' then t[1..] else t);
      if mag.None? then None
      else if t[0] == '-' then Some(-mag.value)
      else mag
  }

  lemma UnsignedDecimalPoint(a: string, b: string)
    requires AllDigits(a) && a != [] && AllDigits(b)
    ensures UnsignedDecimal(a + "." + b) == Some(Decimal(a, b))
  {
    var u := a + "." + b;
    assert DigitRun(u) == |a| by {
      assert u == a + ("." + b);
      DigitRunPrefix(a, "." + b);
    }
    assert u[..|a|] == a && u[|a|..] == "." + b;
    assert ("." + b)[1..] == b;
  }

  lemma PointTextTrimmed(a: string, b: string)
    requires AllDigits(a) && a != [] && AllDigits(b)
    ensures Trim(a + "." + b) == a + "." + b
    ensures Trim("-" + (a + "." + b)) == "-" + (a + "." + b)
  {
    var u := a + "." + b;
    var v := "-" + u;
    assert u[0] == a[0];
    assert u[|u| - 1] == (if b == [] then '.' else b[|b| - 1]);
    assert v[|v| - 1] == u[|u| - 1];
    TrimOfTrimmed(u);
    TrimOfTrimmed(v);
  }

  lemma JsDecimalPoint(a: string, b: string)
    requires AllDigits(a) && a != [] && AllDigits(b)
    ensures JsDecimal(a + "." + b) == Some(Decimal(a, b))
  {
    var u := a + "." + b;
    assert Trim(u) == u by {
      PointTextTrimmed(a, b);
    }
    assert u[0] == a[0];
    assert UnsignedDecimal(u) == Some(Decimal(a, b)) by {
      UnsignedDecimalPoint(a, b);
    }
  }

  /** A trimmed text made of a minus sign and a readable magnitude reads as
      the negated magnitude. */
  lemma JsDecimalMinus(u: string, m: real)
    requires Trim("-" + u) == "-" + u && UnsignedDecimal(u) == Some(m)
    ensures JsDecimal("-" + u) == Some(-m)
  {
    assert ("-" + u)[0] == '-' && ("-" + u)[1..] == u;
  }

  lemma JsDecimalNegativePoint(a: string, b: string)
    requires AllDigits(a) && a != [] && AllDigits(b)
    ensures JsDecimal("-" + (a + "." + b)) == Some(-Decimal(a, b))
  {
    PointTextTrimmed(a, b);
    UnsignedDecimalPoint(a, b);
    JsDecimalMinus(a + "." + b, Decimal(a, b));
  }

  /** A text cell holding a decimal number, signed or not, reads as that
      number, as `Number` reads it. */
  lemma DecimalCell(a: string, b: string)
    requires AllDigits(a) && a != [] && AllDigits(b)
    ensures NumberOf(Str(a + "." + b)) == Some(Decimal(a, b))
    ensures NumberOf(Str("-" + (a + "." + b))) == Some(-Decimal(a, b))
  {
    JsDecimalPoint(a, b);
    JsDecimalNegativePoint(a, b);
  }

  // ---------------------------------------------------------------------
  // Number filters

  /** The operator the pattern `^(>=|<=|>|<)?` takes. */
  function OpPrefix(f: string): (op: string)
    ensures op <= f
  {
    if StartsWith(f, ">=") then ">="
    else if StartsWith(f, "<=") then "<="
    else if StartsWith(f, ">") then ">"
    else if StartsWith(f, "<") then "<"
    else ""
  }

  /** `/^(>=|<=|>|<)?\s*(-?\d+\.?\d*)$/` and `parseFloat` of the number it
      captures. */
  function MatchOp(f: string): Option<(string, real)> {
    var op := OpPrefix(f);
    var rest := TrimStart(f[|op|..]);
    var neg := rest != [] && rest[0] == '-';
    var u := if neg then rest[1..] else rest;
    var n := DigitRun(u);
    var tail := u[n..];
    if n == 0 then None
    else if tail == [] || (tail[0] == '.' && AllDigits(tail[1..])) then
      assert tail != [] ==> FracDigits(tail) == tail[1..];
      var mag := Decimal(u[..n], if tail == [] then "" else tail[1..]);
      Some((op, if neg then -mag else mag))
    else None
  }

  function Compare(op: string, v: real, num: real): bool {
    if op == ">" then v > num
    else if op == "<" then v < num
    else if op == ">=" then v >= num
    else if op == "<=" then v <= num
    else v == num
  }

  /** `min || -Infinity`: a missing (NaN) or zero bound is no bound. */
  predicate AtLeast(v: real, bound: Option<real>) { bound.None? || bound.value == 0.0 || v >= bound.value }
  predicate AtMost(v: real, bound: Option<real>) { bound.None? || bound.value == 0.0 || v <= bound.value }

  function NumText(v: Option<real>, env: Env): string {
    if v.Some? then env.showNum(v.value) else "NaN"
  }

  /** The number branch on the cell's value (None for NaN): a filter with a
      dash is a range, else an operator or a bare number, else a substring
      of the number's text. */
  function NumberFilter(v: Option<real>, f: string, env: Env): bool {
    if '-' in f then
      CountCharZero(f, '-');
      var parts := Split(f, '-');
      var lo := ParseFloat(Trim(parts[0]));
      var hi := ParseFloat(Trim(parts[1]));
      v.Some? && AtLeast(v.value, lo) && AtMost(v.value, hi)
    else
      match MatchOp(f)
      case Some((op, num)) => v.Some? && Compare(op, v.value, num)
      case None => Contains(Lower(NumText(v, env)), Lower(f))
  }

  // ---------------------------------------------------------------------
  // Date filters

  /** `new Date(year, month - 1, day)` from `d/m/y` parts mapped through
      `Number`: invalid (None) when a part is missing or NaN. */
  function DateOfParts(parts: seq<string>, env: Env): Option<int> {
    if |parts| < 3 then None
    else
      var d := JsNumber(parts[0]);
      var m := JsNumber(parts[1]);
      var y := JsNumber(parts[2]);
      if d.None? || m.None? || y.None? then None
      else Some(env.dateOf(y.value, m.value, d.value))
  }

  /** The date branch on the cell's local day: a filter with a dash is an
      inclusive range whose ends must both parse; otherwise an exact date
      whose day, month and year are all non-zero. */
  function DateFilter(day: Option<int>, f: string, env: Env): bool {
    if '-' in f then
      CountCharZero(f, '-');
      var parts := Split(f, '-');
      var start := DateOfParts(Split(Trim(parts[0]), '/'), env);
      var end := DateOfParts(Split(Trim(parts[1]), '/'), env);
      start.Some? && end.Some? && day.Some? && start.value <= day.value <= end.value
    else
      var ps := Split(f, '/');
      if |ps| < 3 then false
      else
        var d := JsNumber(ps[0]);
        var m := JsNumber(ps[1]);
        var y := JsNumber(ps[2]);
        if d.None? || d.value == 0 || m.None? || m.value == 0 || y.None? || y.value == 0 then false
        else day == Some(env.dateOf(y.value, m.value, d.value))
  }

  // ---------------------------------------------------------------------
  // One row against the filters

  /** `Number(cell)`, NaN as None. */
  function NumberOf(c: Cell): Option<real> {
    match c
    case Null => Some(0.0)
    case Num(x) => Some(x)
    case Str(s) => JsDecimal(s)
  }

  function TextOf(c: Cell, env: Env): string {
    match c
    case Null => "null"
    case Num(x) => env.showNum(x)
    case Str(s) => s
  }

  function DayOf(c: Cell, env: Env): Option<int> {
    if c.Str? then env.cellDay(c.s) else None
  }

  /** One column's filter: empty passes, an unconfigured column passes, a
      null or missing cell fails, otherwise the column type decides. */
  predicate Passes(config: map<string, ColType>, row: Row, key: string, f: string, env: Env) {
    f == "" || key !in config
    || (key in row && row[key] != Null &&
        match config[key]
        case NumberCol(percent) =>
          var n := NumberOf(row[key]);
          NumberFilter(if percent && n.Some? then Some(n.value * 100.0) else n, f, env)
        case DateCol => DateFilter(DayOf(row[key], env), f, env)
        case TextCol => Contains(Lower(TextOf(row[key], env)), Lower(f)))
  }

  /** `Object.entries(filtros).every(...)`. */
  predicate Accepts(config: map<string, ColType>, row: Row, filters: map<string, string>, env: Env) {
    forall k :: k in filters ==> Passes(config, row, k, filters[k], env)
  }

  predicate AnyFilter(filters: map<string, string>) {
    exists k :: k in filters && filters[k] != ""
  }

  function VtoText(row: Row): string {
    if "vto" in row && row["vto"].Str? then row["vto"].s else ""
  }

  function VtoTime(env: Env): Row -> int {
    (r: Row) => env.timeOf(VtoText(r))
  }

  /** `datosParaTabla`: the rows every filter accepts when some filter is
      set, all rows otherwise, ordered by maturity. */
  function Table(config: map<string, ColType>, rows: seq<Row>, filters: map<string, string>, env: Env): seq<Row> {
    var kept := if AnyFilter(filters) then Filter(rows, (r: Row) => Accepts(config, r, filters, env)) else rows;
    SortByKey(kept, VtoTime(env))
  }

  // ---------------------------------------------------------------------
  // Merging, segment, slider

  /** `{...bono, ...(caracteristicasMap.get(ticker) || {})}`. */
  function Overlay(row: Row, carac: map<string, Row>, tickerKey: string): Row {
    if tickerKey in row && row[tickerKey].Str? && row[tickerKey].s in carac then row + carac[row[tickerKey].s]
    else row
  }

  /** The merge of the newer page: the bonds unchanged while either side is
      empty. */
  function MergeRows(bonds: seq<Row>, carac: map<string, Row>, tickerKey: string): seq<Row> {
    if |bonds| == 0 || |carac| == 0 then bonds
    else seq(|bonds|, i requires 0 <= i < |bonds| => Overlay(bonds[i], carac, tickerKey))
  }

  /** The merge of the older page: the first batch's rows, or none unless
      that batch has rows and the characteristics have loaded. */
  function MergeBatch(history: seq<Option<seq<Row>>>, carac: map<string, Row>, tickerKey: string): seq<Row> {
    if |history| > 0 && history[0].Some? && |carac| > 0 then
      var datos := history[0].value;
      seq(|datos|, i requires 0 <= i < |datos| => Overlay(datos[i], carac, tickerKey))
    else []
  }

  predicate InSegment(row: Row, segment: string) {
    "segmento" in row && row["segmento"] == Str(segment)
  }

  /** The older page's rows of the 'ON' segment. */
  function SegmentRows(rows: seq<Row>): seq<Row> {
    Filter(rows, (r: Row) => InSegment(r, "ON"))
  }

  /** A row's days to maturity as the comparisons see it: null is 0, a
      missing cell or a non-number is NaN (None). */
  function DaysOf(row: Row, key: string): Option<real> {
    if key in row then NumberOf(row[key]) else None
  }

  function MaxDaysFrom(rows: seq<Row>, key: string): (m: real)
    requires |rows| > 0 && forall i :: 0 <= i < |rows| ==> DaysOf(rows[i], key).Some?
    ensures forall i :: 0 <= i < |rows| ==> DaysOf(rows[i], key).value <= m
    ensures exists i :: 0 <= i < |rows| && DaysOf(rows[i], key).value == m
  {
    if |rows| == 1 then DaysOf(rows[0], key).value
    else
      var m := MaxDaysFrom(rows[1..], key);
      assert forall i :: 1 <= i < |rows| ==> rows[i] == rows[1..][i - 1];
      var d := DaysOf(rows[0], key).value;
      if d >= m then d else m
  }

  /** `maxDiasDelSegmento`: 1000 for no rows or a non-finite maximum (a NaN
      among the days), else the largest day count. */
  function MaxDays(rows: seq<Row>, key: string): (m: real)
    ensures rows == [] ==> m == 1000.0
    ensures (exists i :: 0 <= i < |rows| && DaysOf(rows[i], key).None?) ==> m == 1000.0
    ensures (rows != [] && forall i :: 0 <= i < |rows| ==> DaysOf(rows[i], key).Some?) ==>
              (forall i :: 0 <= i < |rows| ==> DaysOf(rows[i], key).value <= m)
              && (exists i :: 0 <= i < |rows| && DaysOf(rows[i], key).value == m)
  {
    if rows == [] then 1000.0
    else if exists i :: 0 <= i < |rows| && DaysOf(rows[i], key).None? then 1000.0
    else MaxDaysFrom(rows, key)
  }

  predicate DaysWithin(row: Row, key: string, lo: real, hi: real) {
    DaysOf(row, key).Some? && lo <= DaysOf(row, key).value <= hi
  }

  /** The slider view: rows whose days lie in the inclusive range. */
  function DayRange(rows: seq<Row>, key: string, lo: real, hi: real): seq<Row> {
    Filter(rows, (r: Row) => DaysWithin(r, key, lo, hi))
  }

  // ---------------------------------------------------------------------
  // Properties of the table

  /** Keeping the rows `keep` accepts (all rows unless `any`) and sorting
      them by maturity. */
  lemma KeptByMaturity(rows: seq<Row>, keep: Row -> bool, any: bool, env: Env, t: seq<Row>)
    requires t == SortByKey(if any then Filter(rows, keep) else rows, VtoTime(env))
    ensures forall r :: r in t <==> r in rows && (any ==> keep(r))
    ensures multiset(t) <= multiset(rows)
    ensures any ==> multiset(t) == multiset(Filter(rows, keep))
    ensures !any ==> multiset(t) == multiset(rows)
    ensures forall i, j :: 0 <= i < j < |t| ==> env.timeOf(VtoText(t[i])) <= env.timeOf(VtoText(t[j]))
  {
    FilterThenSort(rows, keep, any, VtoTime(env));
    assert forall i, j :: 0 <= i < j < |t| ==> VtoTime(env)(t[i]) <= VtoTime(env)(t[j]);
  }

  /** The table is a reordering of the rows every filter accepts (of all
      rows when no filter is set), each as often as in the input, ordered by
      maturity. */
  lemma TableExactly(config: map<string, ColType>, rows: seq<Row>, filters: map<string, string>, env: Env)
    ensures var t := Table(config, rows, filters, env);
            (forall r :: r in t <==> r in rows && (AnyFilter(filters) ==> Accepts(config, r, filters, env)))
            && multiset(t) <= multiset(rows)
            && (AnyFilter(filters) ==> multiset(t) == multiset(Filter(rows, (r: Row) => Accepts(config, r, filters, env))))
            && (!AnyFilter(filters) ==> multiset(t) == multiset(rows))
            && (forall i, j :: 0 <= i < j < |t| ==> env.timeOf(VtoText(t[i])) <= env.timeOf(VtoText(t[j])))
  {
    var keep := (r: Row) => Accepts(config, r, filters, env);
    KeptByMaturity(rows, keep, AnyFilter(filters), env, Table(config, rows, filters, env));
  }

  /** A set filter on a null or missing cell of a configured column drops
      the row. */
  lemma NullCellRejects(config: map<string, ColType>, rows: seq<Row>, filters: map<string, string>, env: Env,
                        row: Row, k: string)
    requires k in filters && filters[k] != "" && k in config
    requires k !in row || row[k] == Null
    ensures row !in Table(config, rows, filters, env)
  {
    TableExactly(config, rows, filters, env);
    assert !Passes(config, row, k, filters[k], env);
  }

  // ---------------------------------------------------------------------
  // The older corporate page

  /** The older page's number branch. It does not convert the cell first:
      ranges, operators and `==` still compare it as a number, but the
      substring fallback searches the cell's own text `raw`. */
  function OlderNumberFilter(v: Option<real>, raw: string, f: string, env: Env): bool {
    if '-' in f || MatchOp(f).Some? then NumberFilter(v, f, env)
    else Contains(Lower(raw), Lower(f))
  }

  /** One column's filter on the older page: a percentage column is
      converted by `*= 100`, so only plain number columns differ. */
  predicate PassesOlder(config: map<string, ColType>, row: Row, key: string, f: string, env: Env) {
    f == "" || key !in config
    || (key in row && row[key] != Null &&
        match config[key]
        case NumberCol(percent) =>
          var n := NumberOf(row[key]);
          if percent then NumberFilter(if n.Some? then Some(n.value * 100.0) else n, f, env)
          else OlderNumberFilter(n, TextOf(row[key], env), f, env)
        case _ => Passes(config, row, key, f, env))
  }

  predicate AcceptsOlder(config: map<string, ColType>, row: Row, filters: map<string, string>, env: Env) {
    forall k :: k in filters ==> PassesOlder(config, row, k, filters[k], env)
  }

  /** The older page's `datosParaTabla`, over the rows of segment 'ON'. */
  function TableOlder(config: map<string, ColType>, rows: seq<Row>, filters: map<string, string>, env: Env): seq<Row> {
    var kept := if AnyFilter(filters) then Filter(rows, (r: Row) => AcceptsOlder(config, r, filters, env)) else rows;
    SortByKey(kept, VtoTime(env))
  }

  /** Searching the text of the number, the older branch is the newer one. */
  lemma OlderNumberFilterAgrees(v: Option<real>, f: string, env: Env)
    ensures OlderNumberFilter(v, NumText(v, env), f, env) == NumberFilter(v, f, env)
  {
  }

  /** The two pages treat a column alike unless the cell is text and the
      filter is neither a range nor an operator. */
  lemma PagesAgree(config: map<string, ColType>, row: Row, key: string, f: string, env: Env)
    requires key in row && row[key].Str? ==> '-' in f || MatchOp(f).Some?
    ensures PassesOlder(config, row, key, f, env) <==> Passes(config, row, key, f, env)
  {
    if f != "" && key in config && key in row && row[key] != Null && config[key] == NumberCol(false) {
      OlderNumberFilterAgrees(NumberOf(row[key]), f, env);
    }
  }

  /** On a text cell of a plain number column, a filter that is neither a
      range nor an operator searches the cell's text on the older page and
      the text of `Number(cell)` on the newer one. */
  lemma OlderSearchesCellText(config: map<string, ColType>, row: Row, key: string, s: string, f: string, env: Env)
    requires key in config && config[key] == NumberCol(false)
    requires key in row && row[key] == Str(s)
    requires f != "" && '-' !in f && MatchOp(f).None?
    ensures PassesOlder(config, row, key, f, env) <==> Contains(Lower(s), Lower(f))
    ensures Passes(config, row, key, f, env) <==> Contains(Lower(NumText(JsDecimal(s), env)), Lower(f))
  {
  }

  lemma NotAvailableFilterIsText()
    ensures '-' !in "n/d" && MatchOp("n/d").None?
  {
    assert !StartsWith("n/d", ">=") && !StartsWith("n/d", "<=") by {
      assert ">="[0] != "n/d"[0] && "<="[0] != "n/d"[0];
    }
    assert !StartsWith("n/d", ">") && !StartsWith("n/d", "<") by {
      assert ">"[0] != "n/d"[0] && "<"[0] != "n/d"[0];
    }
    assert OpPrefix("n/d") == "";
    assert "n/d"[0..] == "n/d";
    assert TrimStart("n/d") == "n/d";
    assert DigitRun("n/d") == 0;
  }

  lemma NotAvailableIsNaN()
    ensures JsDecimal("N/D").None?
  {
    assert Trim("N/D") == "N/D" by { TrimOfTrimmed("N/D"); }
    assert DigitRun("N/D") == 0;
  }

  lemma NotAvailableTexts()
    ensures Contains(Lower("N/D"), Lower("n/d"))
    ensures !Contains(Lower("NaN"), Lower("n/d"))
  {
    assert Lower("N/D") == "n/d";
    assert Lower("n/d") == "n/d";
    assert Lower("NaN") == "nan";
    assert OccursAt("n/d", "n/d", 0) by { assert "n/d"[0..3] == "n/d"; }
    forall i | 0 <= i <= 3 ensures !OccursAt("nan", "n/d", i) {
      if i == 0 { assert "nan"[0..3][1] != "n/d"[1]; }
    }
  }

  /** A text cell "N/D" with the filter "n/d": the older page keeps the row,
      the newer one drops it, since `String(Number("N/D"))` is "NaN". */
  lemma NotAvailableCell(config: map<string, ColType>, row: Row, key: string, env: Env)
    requires key in config && config[key] == NumberCol(false)
    requires key in row && row[key] == Str("N/D")
    ensures PassesOlder(config, row, key, "n/d", env)
    ensures !Passes(config, row, key, "n/d", env)
  {
    NotAvailableFilterIsText();
    NotAvailableIsNaN();
    NotAvailableTexts();
    OlderSearchesCellText(config, row, key, "N/D", "n/d", env);
  }

  /** The older page's table: a reordering of the rows it accepts, ordered
      by maturity. */
  lemma TableOlderExactly(config: map<string, ColType>, rows: seq<Row>, filters: map<string, string>, env: Env)
    ensures var t := TableOlder(config, rows, filters, env);
            (forall r :: r in t <==> r in rows && (AnyFilter(filters) ==> AcceptsOlder(config, r, filters, env)))
            && (AnyFilter(filters) ==> multiset(t) == multiset(Filter(rows, (r: Row) => AcceptsOlder(config, r, filters, env))))
            && (!AnyFilter(filters) ==> multiset(t) == multiset(rows))
            && (forall i, j :: 0 <= i < j < |t| ==> env.timeOf(VtoText(t[i])) <= env.timeOf(VtoText(t[j])))
  {
    var keep := (r: Row) => AcceptsOlder(config, r, filters, env);
    KeptByMaturity(rows, keep, AnyFilter(filters), env, TableOlder(config, rows, filters, env));
  }

  // ---------------------------------------------------------------------
  // Properties of the number filter

  lemma TrimDigits(d: string)
    requires AllDigits(d)
    ensures TrimStart(d) == d && Trim(d) == d
  {
    TrimOfTrimmed(d);
  }

  lemma ParseFloatDigits(d: string)
    requires AllDigits(d) && d != []
    ensures ParseFloat(d) == Some(DigitsValue(d) as real)
  {
    TrimDigits(d);
    DigitRunAll(d);
    assert d[..|d|] == d;
  }

  lemma ParseFloatEmpty()
    ensures ParseFloat("") == None
  {
  }

  lemma MatchOpDigits(op: string, d: string)
    requires op in {">", "<", ">=", "<=", ""}
    requires AllDigits(d) && d != []
    ensures MatchOp(op + d) == Some((op, DigitsValue(d) as real))
  {
    var f := op + d;
    OpPrefixOf(op, d);
    assert f[|op|..] == d;
    MatchOpNumber(f, d);
  }

  /** Whatever operator the pattern takes, a run of digits after it is the
      number. */
  lemma MatchOpNumber(f: string, d: string)
    requires AllDigits(d) && d != []
    requires f[|OpPrefix(f)|..] == d
    ensures MatchOp(f) == Some((OpPrefix(f), DigitsValue(d) as real))
  {
    TrimDigits(d);
    assert IsDigit(d[0]);
    DigitRunAll(d);
    assert d[|d|..] == [];
    assert d[..|d|] == d;
    assert MatchOp(f) == Some((OpPrefix(f), Decimal(d, "")));
    DecimalWhole(d);
  }

  lemma DecimalWhole(d: string)
    requires AllDigits(d)
    ensures Decimal(d, "") == DigitsValue(d) as real
  {
    assert FractionValue("") == 0.0;
  }

  /** The operator pattern takes exactly the operator written before a
      number. */
  lemma OpPrefixOf(op: string, d: string)
    requires op in {">", "<", ">=", "<=", ""}
    requires AllDigits(d) && d != []
    ensures OpPrefix(op + d) == op
  {
    var f := op + d;
    assert IsDigit(d[0]);
    if op == ">=" || op == "<=" {
      assert f[0] == op[0] && f[1] == op[1];
    } else if op == ">" || op == "<" {
      assert f[0] == op[0] && f[1] == d[0];
    } else {
      assert f == d;
    }
  }

  /** An operator followed by a number compares with that number; a bare
      number is an equality test. */
  lemma OperatorFilters(v: real, d: string, env: Env)
    requires AllDigits(d) && d != []
    ensures var n := DigitsValue(d) as real;
            (NumberFilter(Some(v), ">" + d, env) <==> v > n)
            && (NumberFilter(Some(v), "<" + d, env) <==> v < n)
            && (NumberFilter(Some(v), ">=" + d, env) <==> v >= n)
            && (NumberFilter(Some(v), "<=" + d, env) <==> v <= n)
            && (NumberFilter(Some(v), d, env) <==> v == n)
  {
    OperatorFilter(v, ">", d, env);
    OperatorFilter(v, "<", d, env);
    OperatorFilter(v, ">=", d, env);
    OperatorFilter(v, "<=", d, env);
    OperatorFilter(v, "", d, env);
    assert "" + d == d;
  }

  lemma OperatorFilter(v: real, op: string, d: string, env: Env)
    requires op in {">", "<", ">=", "<=", ""}
    requires AllDigits(d) && d != []
    ensures NumberFilter(Some(v), op + d, env) <==> Compare(op, v, DigitsValue(d) as real)
  {
    assert '-' !in op + d by {
      assert forall i :: 0 <= i < |op + d| ==> (op + d)[i] != '-';
    }
    MatchOpDigits(op, d);
  }

  /** `a-b` is an inclusive range; a zero or missing end leaves that side
      open. */
  lemma RangeFilter(v: real, a: string, b: string, env: Env)
    requires AllDigits(a) && AllDigits(b)
    ensures var lo: Option<real> := if a == [] then None else Some(DigitsValue(a) as real);
            var hi: Option<real> := if b == [] then None else Some(DigitsValue(b) as real);
            NumberFilter(Some(v), a + "-" + b, env) <==> AtLeast(v, lo) && AtMost(v, hi)
  {
    var f := a + "-" + b;
    assert f == a + ['-'] + b;
    assert '-' in f by { assert f[|a|] == '-'; }
    assert '-' !in a && '-' !in b;
    SplitPair(a, b, '-');
    TrimDigits(a);
    TrimDigits(b);
    if a != [] {
      ParseFloatDigits(a);
    }
    if b != [] {
      ParseFloatDigits(b);
    }
  }

  /** A negative operand is read as a range: `<-5` keeps values up to 5,
      because the dash is checked before the operator pattern and `<` is not
      a number. */
  lemma NegativeOperandIsRange(v: real, d: string, env: Env)
    requires AllDigits(d) && d != []
    ensures NumberFilter(Some(v), "<-" + d, env) <==> AtMost(v, Some(DigitsValue(d) as real))
  {
    var f := "<-" + d;
    assert '-' in f by { assert f[1] == '-'; }
    assert Split(f, '-') == ["<", d] by {
      assert "<" + ['-'] == "<-";
      assert '-' !in d by {
        forall i | 0 <= i < |d| ensures d[i] != '-' {
          assert IsDigit(d[i]);
        }
      }
      SplitPair("<", d, '-');
    }
    assert ParseFloat(Trim(d)) == Some(DigitsValue(d) as real) by {
      TrimDigits(d);
      ParseFloatDigits(d);
    }
    assert ParseFloat(Trim("<")) == None by {
      TrimOfTrimmed("<");
    }
  }

  /** Percentage columns are filtered on the value times 100. */
  lemma PercentScaled(config: map<string, ColType>, row: Row, key: string, f: string, env: Env, x: real)
    requires f != "" && key in config && config[key] == NumberCol(true)
    requires key in row && row[key] == Num(x)
    ensures Passes(config, row, key, f, env) <==> NumberFilter(Some(x * 100.0), f, env)
  {
  }

  /** A text filter finds every literal occurrence, in any letter case. */
  lemma TextFilterFinds(config: map<string, ColType>, row: Row, key: string, f: string, env: Env)
    requires key in config && config[key] == TextCol
    requires key in row && row[key].Str? && Contains(row[key].s, f)
    ensures Passes(config, row, key, f, env)
  {
    ContainsLower(row[key].s, f);
  }

  // ---------------------------------------------------------------------
  // Properties of the date filter

  /** An exact date with non-zero day, month and year matches the cell on
      that day and no other. */
  lemma ExactDate(day: Option<int>, d: string, m: string, y: string, env: Env)
    requires AllDigits(d) && AllDigits(m) && AllDigits(y)
    requires d != [] && m != [] && y != []
    requires DigitsValue(d) != 0 && DigitsValue(m) != 0 && DigitsValue(y) != 0
    ensures DateFilter(day, d + "/" + m + "/" + y, env) <==>
              day == Some(env.dateOf(DigitsValue(y), DigitsValue(m), DigitsValue(d)))
  {
    var f := d + "/" + m + "/" + y;
    assert '/' !in d && '/' !in m && '/' !in y && '-' !in d && '-' !in m && '-' !in y;
    assert f == d + ['/'] + (m + ['/'] + y);
    assert '-' !in f;
    SplitPair(m, y, '/');
    SplitAfterPart(d, m + ['/'] + y, '/');
    TrimDigits(d);
    TrimDigits(m);
    TrimDigits(y);
  }

  /** An exact date needs non-zero day, month and year: a zero or missing
      part rejects every row. */
  lemma ExactDateNeedsAllParts(day: Option<int>, f: string, env: Env)
    requires '-' !in f
    requires var ps := Split(f, '/');
             |ps| < 3 || JsNumber(ps[0]) == Some(0) || JsNumber(ps[1]) == Some(0) || JsNumber(ps[2]) == Some(0)
    ensures !DateFilter(day, f, env)
  {
  }

  /** A range whose end does not have three `/` parts rejects every row. */
  lemma UnparsableRangeEndRejects(day: Option<int>, f: string, env: Env)
    requires '-' in f
    requires var parts := Split(f, '-'); |parts| >= 2 && |Split(Trim(parts[1]), '/')| < 3
    ensures !DateFilter(day, f, env)
  {
  }

  // ---------------------------------------------------------------------
  // Properties of the merge and the slider

  /** The merge keeps the number and order of the bonds, overlays each
      bond's characteristics, and leaves the bonds alone while either side
      is empty. */
  lemma MergeRowsShape(bonds: seq<Row>, carac: map<string, Row>, tickerKey: string)
    ensures var r := MergeRows(bonds, carac, tickerKey);
            |r| == |bonds|
            && (forall i :: 0 <= i < |bonds| ==> r[i].Keys >= bonds[i].Keys)
            && (forall i, k :: 0 <= i < |bonds| && k in bonds[i] && (k !in r[i] || r[i][k] != bonds[i][k]) ==>
                  tickerKey in bonds[i] && bonds[i][tickerKey].Str? && bonds[i][tickerKey].s in carac
                  && k in carac[bonds[i][tickerKey].s] && r[i][k] == carac[bonds[i][tickerKey].s][k])
            && ((|bonds| == 0 || |carac| == 0) ==> r == bonds)
  {
  }

  /** The older merge is empty unless the first batch has rows and the
      characteristics are loaded, and then has one row per batch row. */
  lemma MergeBatchShape(history: seq<Option<seq<Row>>>, carac: map<string, Row>, tickerKey: string)
    ensures var r := MergeBatch(history, carac, tickerKey);
            (!(|history| > 0 && history[0].Some? && |carac| > 0) ==> r == [])
            && ((|history| > 0 && history[0].Some? && |carac| > 0) ==>
                  |r| == |history[0].value|
                  && forall i :: 0 <= i < |r| ==> r[i] == Overlay(history[0].value[i], carac, tickerKey))
  {
  }

  /** Only 'ON' rows reach the older page's table and slider maximum. */
  lemma SegmentRowsExactly(rows: seq<Row>)
    ensures forall r :: r in SegmentRows(rows) <==> r in rows && InSegment(r, "ON")
  {
    FilterMembers(rows, (r: Row) => InSegment(r, "ON"));
  }

  /** The slider view keeps exactly the rows whose days lie in the range. */
  lemma DayRangeExactly(rows: seq<Row>, key: string, lo: real, hi: real)
    ensures forall r :: r in DayRange(rows, key, lo, hi) <==> r in rows && DaysWithin(r, key, lo, hi)
  {
    FilterMembers(rows, (r: Row) => DaysWithin(r, key, lo, hi));
  }
}
