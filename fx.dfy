/** The futures monitor: a ticker-keyed book of last prices kept current by
    realtime rows, the month a futures ticker expires in, and the six
    tables the book is split into. */
module FxMonitor {
  import opened Common

  /** `new Date(year, month, 1)`: the first day of a month, month 0-based. */
  datatype YearMonth = YearMonth(year: int, month: int)

  /** A row of the futures table; price and timestamp may be null. */
  datatype DbRow = DbRow(t: string, l: Option<real>, ts: Option<int>)

  /** A book entry: the row and the expiration derived from its ticker. */
  datatype Item = Item(ticker: string, last: Option<real>, timestamp: Option<int>,
                       expiration: Option<YearMonth>)

  // ---------------------------------------------------------------------
  // The expiration month of a ticker

  const MonthCodes: seq<string> := ["ENE", "FEB", "MAR", "ABR", "MAY", "JUN",
                                    "JUL", "AGO", "SEP", "OCT", "NOV", "DIC"]

  /** `/^[A-Z]{3}\d{2}$/`: three capitals and two digits. */
  predicate IsMonthCode(p: string) {
    |p| == 5 && IsUpper(p[0]) && IsUpper(p[1]) && IsUpper(p[2]) && IsDigit(p[3]) && IsDigit(p[4])
  }

  /** The month number of a three-letter Spanish abbreviation. */
  function MonthIndex(m: string): (r: Option<int>)
    ensures r.Some? ==> 0 <= r.value < 12 && MonthCodes[r.value] == m
    ensures r.None? ==> m !in MonthCodes
  {
    MonthIndexFrom(m, 0)
  }

  function MonthIndexFrom(m: string, k: nat): (r: Option<int>)
    requires k <= 12
    ensures r.Some? ==> k <= r.value < 12 && MonthCodes[r.value] == m
    ensures r.None? ==> forall i :: k <= i < 12 ==> MonthCodes[i] != m
    decreases 12 - k
  {
    if k == 12 then None
    else if MonthCodes[k] == m then Some(k)
    else MonthIndexFrom(m, k + 1)
  }

  /** `parts.find(...)`: the first part shaped like a month code. */
  function FindCode(parts: seq<string>): (r: Option<string>)
    ensures r.Some? ==> IsMonthCode(r.value) && r.value in parts
    ensures r.Some? ==> exists i :: 0 <= i < |parts| && parts[i] == r.value && forall j :: 0 <= j < i ==> !IsMonthCode(parts[j])
    ensures r.None? <==> forall i :: 0 <= i < |parts| ==> !IsMonthCode(parts[i])
  {
    if parts == [] then None
    else if IsMonthCode(parts[0]) then Some(parts[0])
    else
      var r := FindCode(parts[1..]);
      assert forall i :: 1 <= i < |parts| ==> parts[i] == parts[1..][i - 1];
      if r.Some? then
        var i :| 0 <= i < |parts[1..]| && parts[1..][i] == r.value && forall j :: 0 <= j < i ==> !IsMonthCode(parts[1..][j]);
        assert parts[i + 1] == r.value;
        r
      else r
  }

  function DigitValue(c: char): int { c as int - '0' as int }

  /** `getExpirationDate`: the first month-code part of the ticker, read
      as the first day of that month of 20yy; none when no part is a code
      or its letters are not a Spanish month. */
  function GetExpirationDate(ticker: string): (r: Option<YearMonth>)
    ensures r.Some? ==> 2000 <= r.value.year < 2100 && 0 <= r.value.month < 12
  {
    match FindCode(Split(ticker, '/'))
    case None => None
    case Some(code) =>
      var m := MonthIndex(code[..3]);
      if m.None? then None
      else Some(YearMonth(2000 + 10 * DigitValue(code[3]) + DigitValue(code[4]), m.value))
  }

  /** The code a month is written with: `DIC25` for December 2025. */
  function CodeOf(ym: YearMonth): string
    requires 2000 <= ym.year < 2100 && 0 <= ym.month < 12
  {
    var y := ym.year - 2000;
    MonthCodes[ym.month] + [('0' as int + y / 10) as char, ('0' as int + y % 10) as char]
  }

  /** The code of a month is shaped like a code, starts with the month's
      abbreviation, and its digits are the year's last two. */
  lemma CodeOfShape(ym: YearMonth)
    requires 2000 <= ym.year < 2100 && 0 <= ym.month < 12
    ensures var code := CodeOf(ym);
            IsMonthCode(code) && '/' !in code && code[..3] == MonthCodes[ym.month]
            && 2000 + 10 * DigitValue(code[3]) + DigitValue(code[4]) == ym.year
  {
    assert forall k :: 0 <= k < 12 ==> (|MonthCodes[k]| == 3 && IsUpper(MonthCodes[k][0])
             && IsUpper(MonthCodes[k][1]) && IsUpper(MonthCodes[k][2]));
  }

  /** Reading the code of a month after a prefix without slashes gives that
      month back. */
  lemma ExpirationRoundTrip(prefix: string, ym: YearMonth)
    requires 2000 <= ym.year < 2100 && 0 <= ym.month < 12
    requires '/' !in prefix && !IsMonthCode(prefix)
    ensures GetExpirationDate(prefix + "/" + CodeOf(ym)) == Some(ym)
  {
    var code := CodeOf(ym);
    var t := prefix + "/" + code;
    CodeOfShape(ym);
    assert t == prefix + ['/'] + code;
    SplitPair(prefix, code, '/');
    assert FindCode([prefix, code]) == Some(code);
    MonthIndexOf(ym.month);
  }

  /** Each abbreviation is read back as its own month. */
  lemma MonthIndexOf(k: int)
    requires 0 <= k < 12
    ensures MonthIndex(MonthCodes[k]) == Some(k)
  {
    var r := MonthIndex(MonthCodes[k]);
    assert MonthCodes[r.value] == MonthCodes[k];
    assert MonthCodes[r.value][0] == MonthCodes[k][0] && MonthCodes[r.value][2] == MonthCodes[k][2];
  }

  /** A ticker with no month-code part, and one whose code does not name a
      Spanish month, have no expiration. */
  lemma ExpirationNone(ticker: string)
    ensures (forall p :: p in Split(ticker, '/') ==> !IsMonthCode(p)) ==> GetExpirationDate(ticker).None?
    ensures (FindCode(Split(ticker, '/')).Some? && FindCode(Split(ticker, '/')).value[..3] !in MonthCodes) ==>
              GetExpirationDate(ticker).None?
  {
    var parts := Split(ticker, '/');
    if forall p :: p in parts ==> !IsMonthCode(p) {
      assert forall i :: 0 <= i < |parts| ==> !IsMonthCode(parts[i]) by {
        forall i | 0 <= i < |parts| ensures !IsMonthCode(parts[i]) {
          assert parts[i] in parts;
        }
      }
    }
  }

  // ---------------------------------------------------------------------
  // The book

  function ItemTicker(x: Item): string { x.ticker }

  function ItemOf(row: DbRow): Item {
    Item(row.t, row.l, row.ts, GetExpirationDate(row.t))
  }

  /** The initial load: `initialMap[row.t] = ...` for every row in order. */
  function MarketOf(rows: seq<DbRow>): seq<Item>
    decreases |rows|
  {
    if rows == [] then []
    else Upsert(MarketOf(rows[..|rows| - 1]), ItemOf(rows[|rows| - 1]), ItemTicker)
  }

  method BuildMarket(rows: seq<DbRow>) returns (market: seq<Item>)
    ensures market == MarketOf(rows)
  {
    market := [];
    var i := 0;
    while i < |rows|
      invariant 0 <= i <= |rows|
      invariant market == MarketOf(rows[..i])
    {
      assert rows[..i + 1][..i] == rows[..i];
      var row := rows[i];
      market := Upsert(market, Item(row.t, row.l, row.ts, GetExpirationDate(row.t)), ItemTicker);
      i := i + 1;
    }
    assert rows[..|rows|] == rows;
  }

  /** The loaded book has one entry per ticker, each the last row with that
      ticker. */
  predicate LastOfTicker(rows: seq<DbRow>, i: int) {
    0 <= i < |rows| && forall j :: i < j < |rows| ==> rows[j].t != rows[i].t
  }

  /** An entry that is the last of its ticker stays so when a row with
      another ticker is appended. */
  lemma LastOfTickerExtend(init: seq<DbRow>, row: DbRow, i: int)
    requires LastOfTicker(init, i) && row.t != init[i].t
    ensures LastOfTicker(init + [row], i)
  {
  }

  lemma {:induction false} MarketOfEntries(rows: seq<DbRow>)
    ensures DistinctKeys(MarketOf(rows), ItemTicker)
    ensures forall x :: x in MarketOf(rows) ==> exists i :: LastOfTicker(rows, i) && x == ItemOf(rows[i])
    decreases |rows|
  {
    if rows != [] {
      var init := rows[..|rows| - 1];
      var last := rows[|rows| - 1];
      assert rows == init + [last];
      MarketOfEntries(init);
      UpsertKeepsKeysDistinct(MarketOf(init), ItemOf(last), ItemTicker);
      UpsertMembers(MarketOf(init), ItemOf(last), ItemTicker);
      forall x | x in MarketOf(rows) ensures exists i :: LastOfTicker(rows, i) && x == ItemOf(rows[i]) {
        if x == ItemOf(last) {
          assert LastOfTicker(rows, |rows| - 1);
        } else {
          var i :| LastOfTicker(init, i) && x == ItemOf(init[i]);
          LastOfTickerExtend(init, last, i);
        }
      }
    }
  }

  /** The realtime handler: a row with a ticker replaces that ticker's
      entry, or adds one; a row without one is ignored. */
  function ApplyTick(market: seq<Item>, row: DbRow): seq<Item> {
    if row.t != "" then Upsert(market, ItemOf(row), ItemTicker) else market
  }

  /** A tick changes its own ticker's entry and no other, and keeps one
      entry per ticker. */
  lemma ApplyTickFrame(market: seq<Item>, row: DbRow)
    requires DistinctKeys(market, ItemTicker)
    ensures var r := ApplyTick(market, row);
            DistinctKeys(r, ItemTicker)
            && (row.t != "" ==> ItemOf(row) in r)
            && (forall x :: x in r && x.ticker != row.t ==> x in market)
            && (forall x :: x in market && x.ticker != row.t ==> x in r)
            && (row.t == "" ==> r == market)
  {
    if row.t != "" {
      var r := Upsert(market, ItemOf(row), ItemTicker);
      UpsertKeepsKeysDistinct(market, ItemOf(row), ItemTicker);
      forall x | x in r && x.ticker != row.t ensures x in market {
        var k :| 0 <= k < |r| && r[k] == x;
        if k < |market| {
          assert market[k].ticker != row.t;
        }
      }
      forall x | x in market && x.ticker != row.t ensures x in r {
        var k :| 0 <= k < |market| && market[k] == x;
      }
    }
  }

  // ---------------------------------------------------------------------
  // The six tables

  predicate IsDlr(x: Item) { StartsWith(x.ticker, "DLR/") }

  /** Dollar outrights: at most one slash. */
  predicate IsSimple(x: Item) { IsDlr(x) && CountChar(x.ticker, '/') <= 1 }

  /** Dollar spreads and rolls: two slashes or more. */
  predicate IsComplex(x: Item) { IsDlr(x) && CountChar(x.ticker, '/') >= 2 }

  predicate IsGold(x: Item) { Contains(x.ticker, "ORO") }
  predicate IsYpfGgal(x: Item) { Contains(x.ticker, "YPF") || Contains(x.ticker, "GGAL") }
  predicate IsAl30(x: Item) { Contains(x.ticker, "AL30") }
  predicate IsRfx20(x: Item) { Contains(Lower(x.ticker), "rfx20") }

  /** `a.ticker.localeCompare(b.ticker) <= 0`, with `collate` standing for
      `localeCompare(..) <= 0` on strings under the browser's collation. */
  function ByTicker(collate: (string, string) -> bool): (Item, Item) -> bool {
    (a: Item, b: Item) => collate(a.ticker, b.ticker)
  }

  lemma ByTickerTotal(collate: (string, string) -> bool)
    requires TotalPreorder(collate)
    ensures TotalPreorder(ByTicker(collate))
  {
    var le := ByTicker(collate);
    forall a: Item, b: Item ensures le(a, b) || le(b, a) {
      assert collate(a.ticker, b.ticker) || collate(b.ticker, a.ticker);
    }
    forall a: Item, b: Item, c: Item | le(a, b) && le(b, c) ensures le(a, c) {
      assert collate(a.ticker, b.ticker) && collate(b.ticker, c.ticker);
    }
  }

  /** A filtered table ordered by ticker under the collation: a permutation
      of the filtered entries, each ticker collating no later than the next. */
  function SortedByTicker(items: seq<Item>, collate: (string, string) -> bool): (r: seq<Item>)
    requires TotalPreorder(collate)
    ensures multiset(r) == multiset(items)
    ensures forall i, j :: 0 <= i < j < |r| ==> collate(r[i].ticker, r[j].ticker)
  {
    ByTickerTotal(collate);
    var r := SortWith(items, ByTicker(collate));
    assert forall i, j :: 0 <= i < j < |r| ==> ByTicker(collate)(r[i], r[j]);
    r
  }

  datatype Tables = Tables(dlrSimples: seq<Item>, dlrComplejos: seq<Item>, oro: seq<Item>,
                           ypfGgal: seq<Item>, al30: seq<Item>, rfx20: seq<Item>)

  /** The classification. The three date-ordered tables are kept in book
      order (their comparator is not a consistent order, see
      `DateOrderCycle`); the other three are ordered by ticker. */
  function Classify(market: seq<Item>, collate: (string, string) -> bool): Tables
    requires TotalPreorder(collate)
  {
    Tables(Filter(market, IsSimple), Filter(market, IsComplex), SortedByTicker(Filter(market, IsGold), collate),
           SortedByTicker(Filter(market, IsYpfGgal), collate), SortedByTicker(Filter(market, IsAl30), collate),
           Filter(market, IsRfx20))
  }

  /** Each table holds exactly the book entries of its kind, and the
      ticker-ordered ones are ordered. */
  lemma ClassifyExactly(market: seq<Item>, collate: (string, string) -> bool)
    requires TotalPreorder(collate)
    ensures var t := Classify(market, collate);
            (forall x :: x in t.dlrSimples <==> x in market && IsSimple(x))
            && (forall x :: x in t.dlrComplejos <==> x in market && IsComplex(x))
            && (forall x :: x in t.oro <==> x in market && IsGold(x))
            && (forall x :: x in t.ypfGgal <==> x in market && IsYpfGgal(x))
            && (forall x :: x in t.al30 <==> x in market && IsAl30(x))
            && (forall x :: x in t.rfx20 <==> x in market && IsRfx20(x))
            && (forall i, j :: 0 <= i < j < |t.oro| ==> collate(t.oro[i].ticker, t.oro[j].ticker))
            && (forall i, j :: 0 <= i < j < |t.ypfGgal| ==> collate(t.ypfGgal[i].ticker, t.ypfGgal[j].ticker))
            && (forall i, j :: 0 <= i < j < |t.al30| ==> collate(t.al30[i].ticker, t.al30[j].ticker))
  {
    FilterMembers(market, IsSimple);
    FilterMembers(market, IsComplex);
    FilterMembers(market, IsRfx20);
    var t := Classify(market, collate);
    FilterMembers(market, IsGold);
    assert forall x :: x in t.oro <==> x in multiset(t.oro);
    assert forall x :: x in Filter(market, IsGold) <==> x in multiset(Filter(market, IsGold));
    FilterMembers(market, IsYpfGgal);
    assert forall x :: x in t.ypfGgal <==> x in multiset(t.ypfGgal);
    assert forall x :: x in Filter(market, IsYpfGgal) <==> x in multiset(Filter(market, IsYpfGgal));
    FilterMembers(market, IsAl30);
    assert forall x :: x in t.al30 <==> x in multiset(t.al30);
    assert forall x :: x in Filter(market, IsAl30) <==> x in multiset(Filter(market, IsAl30));
  }

  /** Every `DLR/` entry is in exactly one of the two dollar tables, and an
      outright has exactly one slash. */
  lemma DlrPartition(x: Item)
    requires IsDlr(x)
    ensures IsSimple(x) != IsComplex(x)
    ensures IsSimple(x) ==> CountChar(x.ticker, '/') == 1
  {
    var t := x.ticker;
    assert t == t[..4] + t[4..];
    assert CountChar(t, '/') == CountChar(t[1..], '/');
    assert CountChar(t[1..], '/') == CountChar(t[2..], '/');
    assert CountChar(t[2..], '/') == CountChar(t[3..], '/');
    assert CountChar(t[3..], '/') == 1 + CountChar(t[4..], '/');
  }

  /** The index table matches its name in any letter case. */
  lemma Rfx20AnyCase(x: Item, spelled: string)
    requires Lower(spelled) == "rfx20"
    requires Contains(x.ticker, spelled)
    ensures IsRfx20(x)
  {
    ContainsLower(x.ticker, spelled);
  }

  // ---------------------------------------------------------------------
  // The date comparator

  /** `getTime()` of the first day of a month is increasing in the month
      count, which is all the comparator uses. */
  function MonthCount(ym: YearMonth): int { ym.year * 12 + ym.month }

  /** `sortByDate`: by expiration when both are dated; otherwise a SPOT
      ticker first; otherwise by ticker. Negative means a goes first. */
  function CompareByDate(a: Item, b: Item, collate: (string, string) -> bool): int {
    if a.expiration.Some? && b.expiration.Some? then MonthCount(a.expiration.value) - MonthCount(b.expiration.value)
    else if Contains(a.ticker, "SPOT") then -1
    else if Contains(b.ticker, "SPOT") then 1
    else if collate(a.ticker, b.ticker) && collate(b.ticker, a.ticker) then 0
    else if collate(a.ticker, b.ticker) then -1
    else 1
  }

  /** Between dated entries the comparator is the expiration order, and
      swapping the arguments flips its sign. */
  lemma CompareDated(a: Item, b: Item, collate: (string, string) -> bool)
    requires a.expiration.Some? && b.expiration.Some?
    requires 0 <= a.expiration.value.month < 12 && 0 <= b.expiration.value.month < 12
    ensures CompareByDate(a, b, collate) < 0 <==>
              a.expiration.value.year < b.expiration.value.year
              || (a.expiration.value.year == b.expiration.value.year && a.expiration.value.month < b.expiration.value.month)
    ensures CompareByDate(a, b, collate) == -CompareByDate(b, a, collate)
  {
  }

  /** With the expiration dates not both known, a SPOT ticker goes before
      one without SPOT, in either argument order. */
  lemma CompareSpotFirst(a: Item, b: Item, collate: (string, string) -> bool)
    requires !(a.expiration.Some? && b.expiration.Some?)
    requires Contains(a.ticker, "SPOT") && !Contains(b.ticker, "SPOT")
    ensures CompareByDate(a, b, collate) < 0 && CompareByDate(b, a, collate) > 0
  {
  }

  /** A dollar outright `DLR/<part>`: one slash, so it belongs to the
      outright table. */
  lemma OutrightTicker(part: string)
    requires '/' !in part
    ensures StartsWith("DLR/" + part, "DLR/") && CountChar("DLR/" + part, '/') == 1
  {
    var t := "DLR/" + part;
    assert t == "DLR" + ['/'] + part;
    assert '/' !in "DLR";
    SplitPair("DLR", part, '/');
  }

  /** The expirations the book derives for the three outrights of the
      cycle below. */
  lemma ExpirationAbr26()
    ensures GetExpirationDate("DLR/ABR26") == Some(YearMonth(2026, 3))
  {
    assert CodeOf(YearMonth(2026, 3)) == "ABR26";
    assert "DLR" + "/" + "ABR26" == "DLR/ABR26";
    ExpirationRoundTrip("DLR", YearMonth(2026, 3));
  }

  lemma ExpirationDic25()
    ensures GetExpirationDate("DLR/DIC25") == Some(YearMonth(2025, 11))
  {
    assert CodeOf(YearMonth(2025, 11)) == "DIC25";
    assert "DLR" + "/" + "DIC25" == "DLR/DIC25";
    ExpirationRoundTrip("DLR", YearMonth(2025, 11));
  }

  lemma ExpirationCi()
    ensures GetExpirationDate("DLR/CI") == None
  {
    assert Split("DLR/CI", '/') == ["DLR", "CI"] by {
      assert "DLR/CI" == "DLR" + ['/'] + "CI";
      assert '/' !in "DLR" && '/' !in "CI";
      SplitPair("DLR", "CI", '/');
    }
    ExpirationNone("DLR/CI");
  }

  /** A ticker without the letter S does not contain SPOT. */
  lemma NoSpot(t: string)
    requires CountChar(t, 'S') == 0
    ensures !Contains(t, "SPOT")
  {
    CountCharZero(t, 'S');
    forall i | 0 <= i <= |t| ensures !OccursAt(t, "SPOT", i) {
      if i + 4 <= |t| {
        assert t[i..i + 4][0] == t[i];
      }
    }
  }

  /** Three dollar outrights of the table the comparator orders in a cycle:
      `DLR/ABR26` before the undated `DLR/CI` by ticker, `DLR/CI` before
      `DLR/DIC25` by ticker, and `DLR/DIC25` before `DLR/ABR26` by date. No
      sorted order satisfies all three, so the order of the date-sorted
      tables is left to the sort implementation. Any collation that puts
      `DLR/ABR26` strictly before `DLR/CI` and that strictly before
      `DLR/DIC25` (code-unit order and every locale's letter order do)
      shows the cycle. The expirations are those the book derives from the
      tickers (ExpirationAbr26, ExpirationCi, ExpirationDic25). */
  lemma DateOrderCycle(collate: (string, string) -> bool)
    requires collate("DLR/ABR26", "DLR/CI") && !collate("DLR/CI", "DLR/ABR26")
    requires collate("DLR/CI", "DLR/DIC25") && !collate("DLR/DIC25", "DLR/CI")
    ensures var a := Item("DLR/ABR26", None, None, Some(YearMonth(2026, 3)));
            var b := Item("DLR/CI", None, None, None);
            var c := Item("DLR/DIC25", None, None, Some(YearMonth(2025, 11)));
            IsSimple(a) && IsSimple(b) && IsSimple(c)
            && CompareByDate(a, b, collate) < 0 && CompareByDate(b, c, collate) < 0 && CompareByDate(c, a, collate) < 0
  {
    CycleOutrights();
    NoSpotAbr26();
    NoSpotCi();
    NoSpotDic25();
  }

  lemma CycleOutrights()
    ensures IsSimple(Item("DLR/ABR26", None, None, Some(YearMonth(2026, 3))))
    ensures IsSimple(Item("DLR/CI", None, None, None))
    ensures IsSimple(Item("DLR/DIC25", None, None, Some(YearMonth(2025, 11))))
  {
    assert "DLR/ABR26" == "DLR/" + "ABR26" && "DLR/CI" == "DLR/" + "CI" && "DLR/DIC25" == "DLR/" + "DIC25";
    OutrightTicker("ABR26");
    OutrightTicker("CI");
    OutrightTicker("DIC25");
  }

  lemma NoSpotAbr26() ensures !Contains("DLR/ABR26", "SPOT") { NoSpot("DLR/ABR26"); }
  lemma NoSpotCi() ensures !Contains("DLR/CI", "SPOT") { NoSpot("DLR/CI"); }
  lemma NoSpotDic25() ensures !Contains("DLR/DIC25", "SPOT") { NoSpot("DLR/DIC25"); }

  /** Code-unit order is such a collation. */
  lemma DateOrderCycleCodeUnits()
    ensures var a := Item("DLR/ABR26", None, None, Some(YearMonth(2026, 3)));
            var b := Item("DLR/CI", None, None, None);
            var c := Item("DLR/DIC25", None, None, Some(YearMonth(2025, 11)));
            CompareByDate(a, b, StrLe) < 0 && CompareByDate(b, c, StrLe) < 0 && CompareByDate(c, a, StrLe) < 0
  {
    assert StrLe("DLR/ABR26", "DLR/CI") && !StrLe("DLR/CI", "DLR/ABR26");
    assert StrLe("DLR/CI", "DLR/DIC25") && !StrLe("DLR/DIC25", "DLR/CI");
    DateOrderCycle(StrLe);
  }
}
