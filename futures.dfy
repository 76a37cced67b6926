/** Dollar futures next to the fixed-rate pages (ONs dollar linked, LECAPs
    against dollar futures, LECAPs converted to dollars): the quote book,
    the maturity of a futures ticker, the exact-maturity map, and the three
    synthetic-rate tables built from them. */
module Futures {
  import opened Common
  import opened Bonds

  /** A futures quote: ticker, last price and timestamp, each possibly null. */
  datatype Quote = Quote(t: string, l: Option<real>, ts: Option<int>)

  function QuoteTicker(q: Quote): string { q.t }

  /** A number is truthy when present and non-zero. */
  predicate Truthy(x: Option<real>) { x.Some? && x.value != 0.0 }

  /** The date services the pages call: today's day number, `parseISO`,
      `endOfMonth(parse(code, 'MMMyy'))` in the Spanish and in the default
      locale, `format(d, 'dd/MM/yy')`, and `format(parseISO(vto), 'MMMyy')`
      in both locales. A None stands for an invalid date, on which
      `format` throws. */
  datatype Calendar = Calendar(
    today: int,
    parseIso: string -> Option<int>,
    monthEndEs: string -> Option<int>,
    monthEndEn: string -> Option<int>,
    fmt: int -> string,
    codeEs: string -> Option<string>,
    codeEn: string -> Option<string>)

  // ---------------------------------------------------------------------
  // The quote book: a Map from ticker to quote, in insertion order

  /** `map.get(t)`: the entry with that ticker. */
  function Get(book: seq<Quote>, t: string): (r: Option<Quote>)
    ensures r.None? <==> !HasKey(book, t, QuoteTicker)
    ensures r.Some? ==> r.value.t == t
    ensures r.Some? ==> exists i :: 0 <= i < |book| && book[i] == r.value && forall j :: 0 <= j < i ==> book[j].t != t
  {
    if book == [] then None
    else if book[0].t == t then Some(book[0])
    else
      var r := Get(book[1..], t);
      assert forall i :: 1 <= i < |book| ==> book[i] == book[1..][i - 1];
      if r.Some? then
        var i :| 0 <= i < |book[1..]| && book[1..][i] == r.value && forall j :: 0 <= j < i ==> book[1..][j].t != t;
        assert book[i + 1] == r.value;
        r
      else r
  }

  /** The initial load: `map.set(item.t, item)` for every row in order. */
  function BookOf(items: seq<Quote>): seq<Quote>
    decreases |items|
  {
    if items == [] then []
    else Upsert(BookOf(items[..|items| - 1]), items[|items| - 1], QuoteTicker)
  }

  method BuildBook(items: seq<Quote>) returns (book: seq<Quote>)
    ensures book == BookOf(items)
  {
    book := [];
    var i := 0;
    while i < |items|
      invariant 0 <= i <= |items|
      invariant book == BookOf(items[..i])
    {
      assert items[..i + 1][..i] == items[..i];
      book := Upsert(book, items[i], QuoteTicker);
      i := i + 1;
    }
    assert items[..|items|] == items;
  }

  /** The loaded book has one entry per ticker. */
  lemma {:induction false} BookOfDistinct(items: seq<Quote>)
    ensures DistinctKeys(BookOf(items), QuoteTicker)
    decreases |items|
  {
    if items != [] {
      BookOfDistinct(items[..|items| - 1]);
      UpsertKeepsKeysDistinct(BookOf(items[..|items| - 1]), items[|items| - 1], QuoteTicker);
    }
  }

  /** The realtime handler: a row with a ticker is set under it, a row
      without one is ignored. */
  function OnQuote(book: seq<Quote>, q: Quote): seq<Quote> {
    if q.t != "" then Upsert(book, q, QuoteTicker) else book
  }

  /** Two books that agree on where ticker k sits, and on its entry there,
      give the same lookup for k. */
  lemma GetAgree(a: seq<Quote>, b: seq<Quote>, k: string)
    requires |a| <= |b|
    requires forall i :: 0 <= i < |a| ==> (a[i].t == k <==> b[i].t == k)
    requires forall i :: 0 <= i < |a| && a[i].t == k ==> b[i] == a[i]
    requires forall i :: |a| <= i < |b| ==> b[i].t != k
    ensures Get(a, k) == Get(b, k)
  {
    if HasKey(a, k, QuoteTicker) {
      var i :| 0 <= i < |a| && a[i].t == k;
      assert b[i].t == k;
      var ga := Get(a, k).value;
      var ia :| 0 <= ia < |a| && a[ia] == ga && forall j :: 0 <= j < ia ==> a[j].t != k;
      var gb := Get(b, k).value;
      var ib :| 0 <= ib < |b| && b[ib] == gb && forall j :: 0 <= j < ib ==> b[j].t != k;
    } else {
      forall i | 0 <= i < |b| ensures b[i].t != k {
        if i < |a| {
          assert a[i].t != k;
        }
      }
    }
  }

  /** After a quote, its ticker maps to it. */
  lemma OnQuoteGetSelf(book: seq<Quote>, q: Quote)
    requires q.t != ""
    ensures Get(OnQuote(book, q), q.t) == Some(q)
  {
    var r := OnQuote(book, q);
    var g := Get(r, q.t);
    var i :| 0 <= i < |r| && r[i] == g.value && forall j :: 0 <= j < i ==> r[j].t != q.t;
    if i < |book| {
      assert r[i] == q;
    } else {
      assert r == book + [q];
    }
  }

  /** After a quote, every other ticker maps to what it mapped to before. */
  lemma OnQuoteGetOther(book: seq<Quote>, q: Quote, k: string)
    requires q.t != "" && k != q.t
    ensures Get(OnQuote(book, q), k) == Get(book, k)
  {
    var r := OnQuote(book, q);
    assert forall i :: 0 <= i < |book| && book[i].t != q.t ==> r[i] == book[i];
    assert forall i :: 0 <= i < |book| && book[i].t == q.t ==> r[i] == q;
    assert |r| == |book| || r == book + [q];
    GetAgree(book, r, k);
  }

  /** The price under a ticker, null when the ticker is absent. */
  function PriceOf(book: seq<Quote>, t: string): Option<real> {
    var q := Get(book, t);
    if q.Some? then q.value.l else None
  }

  // ---------------------------------------------------------------------
  // The maturity of a futures ticker

  datatype VtoInfo = VtoInfo(diasVto: int, vtoString: string)

  /** What the parsers' exception path returns. */
  const ErrorInfo := VtoInfo(-1, "Error")

  /** `dias > 0 ? dias : 0`. */
  function ClampDays(d: int): int { if d > 0 then d else 0 }

  /** Days and label once a maturity date is known, or the error when the
      date is invalid (formatting it throws). */
  function InfoOf(date: Option<int>, cal: Calendar): VtoInfo {
    if date.None? then ErrorInfo else VtoInfo(ClampDays(date.value - cal.today), cal.fmt(date.value))
  }

  /** `getVtoInfo` of the ONs and dollar-linked pages: SPOT and 24hs tickers
      are fixed; any other month code takes its exact maturity from the
      map when the map has a non-empty one, else the end of the month. */
  function GetVtoInfo(ticker: string, venc: map<string, string>, cal: Calendar): (r: VtoInfo)
    ensures r.diasVto >= 0 || r == ErrorInfo
  {
    var parts := Split(ticker, '/');
    if |parts| < 2 || parts[1] == "SPOT" then VtoInfo(0, "SPOT")
    else if parts[1] == "24hs" then VtoInfo(1, "24hs")
    else
      var code := Upper(parts[1]);
      if code in venc && venc[code] != "" then InfoOf(cal.parseIso(venc[code]), cal)
      else InfoOf(cal.monthEndEs(code), cal)
  }

  /** `getVtoInfo` of the dollar-conversion page: CI instead of SPOT, and
      always the end of the month named by the code. */
  function GetVtoInfoCi(ticker: string, cal: Calendar): (r: VtoInfo)
    ensures r.diasVto >= 0 || r == ErrorInfo
  {
    var parts := Split(ticker, '/');
    if |parts| < 2 || parts[1] == "CI" then VtoInfo(0, "CI")
    else if parts[1] == "24hs" then VtoInfo(1, "24hs")
    else InfoOf(cal.monthEndEn(parts[1]), cal)
  }

  /** A month code with an exact maturity in the map is counted to that
      date; the map is looked up with the code upper-cased. */
  lemma ExactMaturityWins(month: string, venc: map<string, string>, cal: Calendar)
    requires '/' !in month && month != "SPOT" && month != "24hs"
    requires Upper(month) in venc && venc[Upper(month)] != ""
    requires cal.parseIso(venc[Upper(month)]).Some?
    ensures var d := cal.parseIso(venc[Upper(month)]).value;
            GetVtoInfo("DLR/" + month, venc, cal) == VtoInfo(ClampDays(d - cal.today), cal.fmt(d))
  {
    assert "DLR/" + month == "DLR" + ['/'] + month;
    SplitPair("DLR", month, '/');
  }

  /** Without an exact maturity the end of the month is used, and a code the
      month parser rejects gives the error sentinel. */
  lemma MonthEndFallback(month: string, venc: map<string, string>, cal: Calendar)
    requires '/' !in month && month != "SPOT" && month != "24hs"
    requires Upper(month) !in venc
    ensures cal.monthEndEs(Upper(month)).None? ==> GetVtoInfo("DLR/" + month, venc, cal) == ErrorInfo
    ensures cal.monthEndEs(Upper(month)).Some? ==>
              GetVtoInfo("DLR/" + month, venc, cal).diasVto == ClampDays(cal.monthEndEs(Upper(month)).value - cal.today)
  {
    assert "DLR/" + month == "DLR" + ['/'] + month;
    SplitPair("DLR", month, '/');
  }

  /** A ticker with no month part, or with `SPOT`, is the spot itself at
      zero days; `24hs` settles the next day. The map and the calendar
      are not consulted. */
  lemma SpotAndNextDay(root: string, venc: map<string, string>, cal: Calendar)
    requires '/' !in root
    ensures GetVtoInfo(root, venc, cal) == VtoInfo(0, "SPOT")
    ensures GetVtoInfo(root + "/SPOT", venc, cal) == VtoInfo(0, "SPOT")
    ensures GetVtoInfo(root + "/24hs", venc, cal) == VtoInfo(1, "24hs")
  {
    SplitNoSeparator(root, '/');
    assert root + "/SPOT" == root + ['/'] + "SPOT";
    SplitPair(root, "SPOT", '/');
    assert root + "/24hs" == root + ['/'] + "24hs";
    SplitPair(root, "24hs", '/');
  }

  /** The same on the dollar-conversion page, with `CI` as the spot. */
  lemma CiAndNextDay(root: string, cal: Calendar)
    requires '/' !in root
    ensures GetVtoInfoCi(root, cal) == VtoInfo(0, "CI")
    ensures GetVtoInfoCi(root + "/CI", cal) == VtoInfo(0, "CI")
    ensures GetVtoInfoCi(root + "/24hs", cal) == VtoInfo(1, "24hs")
  {
    SplitNoSeparator(root, '/');
    assert root + "/CI" == root + ['/'] + "CI";
    SplitPair(root, "CI", '/');
    assert root + "/24hs" == root + ['/'] + "24hs";
    SplitPair(root, "24hs", '/');
  }

  /** On the dollar-conversion page any other month code is counted to the
      end of the month it names in the default locale, as written (not
      upper-cased), clamped at zero; a code the parser rejects gives the
      error sentinel. */
  lemma MonthEndCi(month: string, cal: Calendar)
    requires '/' !in month && month != "CI" && month != "24hs"
    ensures cal.monthEndEn(month).None? ==> GetVtoInfoCi("DLR/" + month, cal) == ErrorInfo
    ensures cal.monthEndEn(month).Some? ==>
              var d := cal.monthEndEn(month).value;
              GetVtoInfoCi("DLR/" + month, cal) == VtoInfo(ClampDays(d - cal.today), cal.fmt(d))
  {
    assert "DLR/" + month == "DLR" + ['/'] + month;
    SplitPair("DLR", month, '/');
  }

  // ---------------------------------------------------------------------
  // The exact-maturity map

  /** A row of the maturities table; either column may be missing. */
  datatype VencRow = VencRow(ticker: Option<string>, fecha: Option<string>)

  predicate Complete(v: VencRow) {
    v.ticker.Some? && v.ticker.value != "" && v.fecha.Some? && v.fecha.value != ""
  }

  /** The map the loop builds: complete rows only, keys upper-cased, a later
      row overwriting an earlier one. */
  function VencOf(rows: seq<VencRow>): map<string, string>
    decreases |rows|
  {
    if rows == [] then map[]
    else
      var m := VencOf(rows[..|rows| - 1]);
      var v := rows[|rows| - 1];
      if Complete(v) then m[Upper(v.ticker.value) := v.fecha.value] else m
  }

  /** `fetchVencimientos`. */
  method BuildVencimientos(rows: seq<VencRow>) returns (m: map<string, string>)
    ensures m == VencOf(rows)
  {
    m := map[];
    var i := 0;
    while i < |rows|
      invariant 0 <= i <= |rows|
      invariant m == VencOf(rows[..i])
    {
      assert rows[..i + 1][..i] == rows[..i];
      var v := rows[i];
      if v.ticker.Some? && v.ticker.value != "" && v.fecha.Some? && v.fecha.value != "" {
        m := m[Upper(v.ticker.value) := v.fecha.value];
      }
      i := i + 1;
    }
    assert rows[..|rows|] == rows;
  }

  lemma UpperIdempotent(s: string)
    ensures Upper(Upper(s)) == Upper(s)
  {
  }

  /** Every key is upper-case and comes from a complete row, and every
      value is the non-empty date of a complete row with that key. */
  lemma {:induction false} VencOfKeys(rows: seq<VencRow>)
    ensures forall k :: k in VencOf(rows) ==> Upper(k) == k
    ensures forall k :: k in VencOf(rows) ==> VencOf(rows)[k] != ""
    ensures forall k :: k in VencOf(rows) <==> exists i :: 0 <= i < |rows| && Complete(rows[i]) && Upper(rows[i].ticker.value) == k
    decreases |rows|
  {
    if rows != [] {
      var init := rows[..|rows| - 1];
      VencOfKeys(init);
      assert forall i :: 0 <= i < |init| ==> init[i] == rows[i];
      var v := rows[|rows| - 1];
      if Complete(v) {
        UpperIdempotent(v.ticker.value);
      }
      forall k | k in VencOf(rows) ensures exists i :: 0 <= i < |rows| && Complete(rows[i]) && Upper(rows[i].ticker.value) == k {
        if k in VencOf(init) {
          var i :| 0 <= i < |init| && Complete(init[i]) && Upper(init[i].ticker.value) == k;
          assert rows[i] == init[i];
        }
      }
    }
  }

  // ---------------------------------------------------------------------
  // Futures against spot

  /** The three pages that draw a futures table. */
  datatype Page = OnDl | DlFx | ConFx

  function SpotTicker(page: Page): string {
    if page == ConFx then "DLR/CI" else "DLR/SPOT"
  }

  datatype FutureRow = FutureRow(ticker: string, precio: real, diasVto: int, tna: Option<real>)

  function DaysFor(page: Page, ticker: string, venc: map<string, string>, cal: Calendar): int {
    if page == ConFx then GetVtoInfoCi(ticker, cal).diasVto else GetVtoInfo(ticker, venc, cal).diasVto
  }

  /** The checks before the maturity: not the spot itself, a truthy price;
      on the two dollar-linked pages a `DLR/` ticker without spaces; on the
      ONs page also no second slash. */
  predicate Eligible(page: Page, q: Quote) {
    q.t != SpotTicker(page) && Truthy(q.l)
    && (page != ConFx ==> StartsWith(q.t, "DLR/") && ' ' !in q.t)
    && (page == OnDl ==> |Split(q.t, '/')| <= 2)
  }

  /** `((F / S) - 1) * (365 / days)`. */
  function FutureTna(f: real, s: real, days: int): real
    requires s != 0.0 && days > 0
  {
    (f / s - 1.0) * (365.0 / days as real)
  }

  /** The row one quote contributes, if any. */
  function RowFor(page: Page, q: Quote, spot: Option<real>, venc: map<string, string>, cal: Calendar): (r: Option<FutureRow>)
    ensures r.Some? ==> Eligible(page, q) && r.value.diasVto > 1 && r.value.ticker == q.t && r.value.precio == q.l.value
    ensures r.Some? ==> (r.value.tna.Some? <==> Truthy(spot))
  {
    if !Eligible(page, q) then None
    else
      var d := DaysFor(page, q.t, venc, cal);
      if d <= 1 then None
      else Some(FutureRow(q.t, q.l.value, d, if Truthy(spot) then Some(FutureTna(q.l.value, spot.value, d)) else None))
  }

  function RowsOf(page: Page, book: seq<Quote>, spot: Option<real>, venc: map<string, string>, cal: Calendar): seq<FutureRow>
    decreases |book|
  {
    if book == [] then []
    else
      var r := RowFor(page, book[|book| - 1], spot, venc, cal);
      RowsOf(page, book[..|book| - 1], spot, venc, cal) + (if r.Some? then [r.value] else [])
  }

  function DaysKey(r: FutureRow): int { r.diasVto }

  /** `TablaSinteticos`: no rows on the dollar-linked pages while the
      maturity map is empty; otherwise the rows of the book, by days. */
  function FuturesTable(page: Page, book: seq<Quote>, venc: map<string, string>, cal: Calendar): seq<FutureRow> {
    if page != ConFx && |venc| == 0 then []
    else SortByKey(RowsOf(page, book, PriceOf(book, SpotTicker(page)), venc, cal), DaysKey)
  }

  /** The body of the loop over the book: the checks, then the row. */
  method CheckQuote(page: Page, q: Quote, spot: Option<real>, venc: map<string, string>, cal: Calendar)
    returns (r: Option<FutureRow>)
    ensures r == RowFor(page, q, spot, venc, cal)
  {
    var spotTicker := if page == ConFx then "DLR/CI" else "DLR/SPOT";
    if q.t == spotTicker || !(q.l.Some? && q.l.value != 0.0) {
      return None;
    }
    if page != ConFx && (!StartsWith(q.t, "DLR/") || ' ' in q.t) {
      return None;
    }
    if page == OnDl && |Split(q.t, '/')| > 2 {
      return None;
    }
    var diasVto := DaysFor(page, q.t, venc, cal);
    if diasVto <= 1 {
      return None;
    }
    var tna: Option<real> := None;
    if spot.Some? && spot.value != 0.0 {
      tna := Some(FutureTna(q.l.value, spot.value, diasVto));
    }
    r := Some(FutureRow(q.t, q.l.value, diasVto, tna));
  }

  method TablaSinteticos(page: Page, book: seq<Quote>, venc: map<string, string>, cal: Calendar)
    returns (rows: seq<FutureRow>)
    ensures rows == FuturesTable(page, book, venc, cal)
  {
    if page != ConFx && |venc| == 0 {
      return [];
    }
    var spot := PriceOf(book, SpotTicker(page));
    var lista: seq<FutureRow> := [];
    var i := 0;
    while i < |book|
      invariant 0 <= i <= |book|
      invariant lista == RowsOf(page, book[..i], spot, venc, cal)
    {
      assert book[..i + 1][..i] == book[..i];
      var r := CheckQuote(page, book[i], spot, venc, cal);
      if r.Some? {
        lista := lista + [r.value];
      }
      i := i + 1;
    }
    assert book[..|book|] == book;
    rows := SortByKey(lista, DaysKey);
  }

  lemma {:induction false} RowsOfMembers(page: Page, book: seq<Quote>, spot: Option<real>, venc: map<string, string>, cal: Calendar)
    ensures forall r :: r in RowsOf(page, book, spot, venc, cal) <==>
              exists i :: 0 <= i < |book| && RowFor(page, book[i], spot, venc, cal) == Some(r)
  {
    RowsOfSound(page, book, spot, venc, cal);
    RowsOfComplete(page, book, spot, venc, cal);
  }

  /** Every row comes from a quote of the book. */
  lemma {:induction false} RowsOfSound(page: Page, book: seq<Quote>, spot: Option<real>, venc: map<string, string>, cal: Calendar)
    ensures forall r :: r in RowsOf(page, book, spot, venc, cal) ==>
              exists i :: 0 <= i < |book| && RowFor(page, book[i], spot, venc, cal) == Some(r)
    decreases |book|
  {
    if book != [] {
      var init := book[..|book| - 1];
      RowsOfSound(page, init, spot, venc, cal);
      assert forall i :: 0 <= i < |init| ==> init[i] == book[i];
    }
  }

  /** Every quote that yields a row has it in the list. */
  lemma {:induction false} RowsOfComplete(page: Page, book: seq<Quote>, spot: Option<real>, venc: map<string, string>, cal: Calendar)
    ensures forall i :: 0 <= i < |book| && RowFor(page, book[i], spot, venc, cal).Some? ==>
              RowFor(page, book[i], spot, venc, cal).value in RowsOf(page, book, spot, venc, cal)
    decreases |book|
  {
    if book != [] {
      var init := book[..|book| - 1];
      RowsOfComplete(page, init, spot, venc, cal);
      assert forall i :: 0 <= i < |init| ==> init[i] == book[i];
    }
  }

  /** A `DLR/` ticker with at most two slash-separated parts has exactly one
      slash. */
  lemma OneSlash(t: string)
    requires StartsWith(t, "DLR/") && |Split(t, '/')| <= 2
    ensures CountChar(t, '/') == 1
  {
    assert t == t[..4] + t[4..];
    assert CountChar(t, '/') == CountChar(t[1..], '/');
    assert CountChar(t[1..], '/') == CountChar(t[2..], '/');
    assert CountChar(t[2..], '/') == CountChar(t[3..], '/');
    assert CountChar(t[3..], '/') == 1 + CountChar(t[4..], '/');
  }

  /** The table lists exactly the rows the quotes of the book give, by
      days. */
  lemma FuturesTableMembers(page: Page, book: seq<Quote>, venc: map<string, string>, cal: Calendar)
    requires page == ConFx || |venc| > 0
    ensures var table := FuturesTable(page, book, venc, cal);
            var spot := PriceOf(book, SpotTicker(page));
            (forall r :: r in table <==> exists i :: 0 <= i < |book| && RowFor(page, book[i], spot, venc, cal) == Some(r))
            && (forall i, j :: 0 <= i < j < |table| ==> table[i].diasVto <= table[j].diasVto)
  {
    var spot := PriceOf(book, SpotTicker(page));
    var rows := RowsOf(page, book, spot, venc, cal);
    var table := FuturesTable(page, book, venc, cal);
    RowsOfMembers(page, book, spot, venc, cal);
    assert forall r :: r in table <==> r in multiset(table);
    assert forall r :: r in rows <==> r in multiset(rows);
  }

  /** Every listed future passed the page's checks, lasts more than one
      day, and carries a TNA, computed against the spot, only when the spot
      price is truthy; every eligible quote with more than one day is
      listed. */
  lemma FuturesTableRows(page: Page, book: seq<Quote>, venc: map<string, string>, cal: Calendar)
    requires page == ConFx || |venc| > 0
    ensures var table := FuturesTable(page, book, venc, cal);
            var spot := PriceOf(book, SpotTicker(page));
            (forall r :: r in table ==> r.diasVto > 1 && r.ticker != SpotTicker(page) && r.precio != 0.0)
            && (forall r :: r in table && page != ConFx ==> StartsWith(r.ticker, "DLR/") && ' ' !in r.ticker)
            && (forall r :: r in table && page == OnDl ==> CountChar(r.ticker, '/') == 1)
            && (forall r :: r in table ==> (r.tna.Some? <==> Truthy(spot)))
            && (forall r :: r in table && r.tna.Some? ==> r.tna.value == FutureTna(r.precio, spot.value, r.diasVto))
            && (forall q :: q in book && Eligible(page, q) && DaysFor(page, q.t, venc, cal) > 1 ==>
                  exists r :: r in table && r.ticker == q.t && r.precio == q.l.value)
  {
    var spot := PriceOf(book, SpotTicker(page));
    var table := FuturesTable(page, book, venc, cal);
    FuturesTableMembers(page, book, venc, cal);
    forall r | r in table
      ensures r.diasVto > 1 && r.ticker != SpotTicker(page) && r.precio != 0.0
      ensures page != ConFx ==> StartsWith(r.ticker, "DLR/") && ' ' !in r.ticker
      ensures page == OnDl ==> CountChar(r.ticker, '/') == 1
      ensures r.tna.Some? <==> Truthy(spot)
      ensures r.tna.Some? ==> r.tna.value == FutureTna(r.precio, spot.value, r.diasVto)
    {
      var i :| 0 <= i < |book| && RowFor(page, book[i], spot, venc, cal) == Some(r);
      if page == OnDl {
        OneSlash(r.ticker);
      }
    }
    forall q | q in book && Eligible(page, q) && DaysFor(page, q.t, venc, cal) > 1
      ensures exists r :: r in table && r.ticker == q.t && r.precio == q.l.value
    {
      var i :| 0 <= i < |book| && book[i] == q;
      var r := RowFor(page, q, spot, venc, cal).value;
      assert RowFor(page, book[i], spot, venc, cal) == Some(r);
    }
  }

  /** The futures TNA is positive exactly when the future trades above a
      positive spot. */
  lemma FutureTnaSign(f: real, s: real, days: int)
    requires s > 0.0 && days > 0
    ensures FutureTna(f, s, days) > 0.0 <==> f > s
  {
    var k := 365.0 / days as real;
    assert k > 0.0;
    if f > s {
      assert f / s > 1.0;
    } else {
      assert f / s <= 1.0;
    }
  }

  // ---------------------------------------------------------------------
  // Dollar-linked bond against the future of its month

  datatype DlRow = DlRow(tickerLecap: string, tickerFuturo: string, dias: int,
                         precioLetra: real, precioFuturo: real, tna: real)

  /** `((F / (p / 100)) - 1) * (365 / dv)`. */
  function DlTna(f: real, p: real, dv: int): real
    requires p != 0.0 && dv > 0
  {
    (f / (p / 100.0) - 1.0) * (365.0 / dv as real)
  }

  /** A bond pairs with `DLR/<its month>` when it has a positive price,
      positive days and a maturity, the future has a positive price, and
      the map's exact maturity for that month equals the bond's. */
  function DlRowFor(b: Bond, book: seq<Quote>, venc: map<string, string>, cal: Calendar): (r: Option<DlRow>)
    ensures r.Some? ==> b.p.Some? && b.p.value > 0.0 && b.dv > 0 && r.value.precioFuturo > 0.0
    ensures r.Some? ==> cal.codeEs(b.vto).Some? && r.value.tickerFuturo == "DLR/" + Upper(cal.codeEs(b.vto).value)
    ensures r.Some? ==> Upper(cal.codeEs(b.vto).value) in venc && venc[Upper(cal.codeEs(b.vto).value)] == b.vto
    ensures r.Some? ==> PriceOf(book, r.value.tickerFuturo) == Some(r.value.precioFuturo)
    ensures r.Some? ==> r.value.tickerLecap == b.t && r.value.dias == b.dv && r.value.precioLetra == b.p.value
    ensures r.Some? ==> r.value.tna == DlTna(r.value.precioFuturo, r.value.precioLetra, r.value.dias)
  {
    if b.p.None? || b.p.value <= 0.0 || b.dv <= 0 || b.vto == "" then None
    else if cal.codeEs(b.vto).None? then None
    else
      var code := Upper(cal.codeEs(b.vto).value);
      var ft := "DLR/" + code;
      var f := PriceOf(book, ft);
      if f.None? || f.value <= 0.0 then None
      else if code !in venc || venc[code] != b.vto then None
      else Some(DlRow(b.t, ft, b.dv, b.p.value, f.value, DlTna(f.value, b.p.value, b.dv)))
  }

  function DlRowsOf(bonds: seq<Bond>, book: seq<Quote>, venc: map<string, string>, cal: Calendar): seq<DlRow>
    decreases |bonds|
  {
    if bonds == [] then []
    else
      var r := DlRowFor(bonds[|bonds| - 1], book, venc, cal);
      DlRowsOf(bonds[..|bonds| - 1], book, venc, cal) + (if r.Some? then [r.value] else [])
  }

  function DlDays(r: DlRow): int { r.dias }

  /** `TablaSinteticosDL`: the paired rows, by days. */
  method TablaSinteticosDL(bonds: seq<Bond>, book: seq<Quote>, venc: map<string, string>, cal: Calendar)
    returns (rows: seq<DlRow>)
    ensures rows == SortByKey(DlRowsOf(bonds, book, venc, cal), DlDays)
  {
    var calculados: seq<DlRow> := [];
    var i := 0;
    while i < |bonds|
      invariant 0 <= i <= |bonds|
      invariant calculados == DlRowsOf(bonds[..i], book, venc, cal)
    {
      assert bonds[..i + 1][..i] == bonds[..i];
      var r := DlRowFor(bonds[i], book, venc, cal);
      if r.Some? {
        calculados := calculados + [r.value];
      }
      i := i + 1;
    }
    assert bonds[..|bonds|] == bonds;
    rows := SortByKey(calculados, DlDays);
  }

  lemma {:induction false} DlRowsOfMembers(bonds: seq<Bond>, book: seq<Quote>, venc: map<string, string>, cal: Calendar)
    ensures forall r :: r in DlRowsOf(bonds, book, venc, cal) ==>
              exists i :: 0 <= i < |bonds| && DlRowFor(bonds[i], book, venc, cal) == Some(r)
    decreases |bonds|
  {
    if bonds != [] {
      var init := bonds[..|bonds| - 1];
      DlRowsOfMembers(init, book, venc, cal);
      assert forall i :: 0 <= i < |init| ==> init[i] == bonds[i];
    }
  }

  /** The synthetic TNA of a paired bond is positive exactly when the
      future is above the bond's price per unit of face value. */
  lemma DlTnaSign(f: real, p: real, dv: int)
    requires p > 0.0 && dv > 0
    ensures DlTna(f, p, dv) > 0.0 <==> f > p / 100.0
  {
    var u := p / 100.0;
    assert u > 0.0;
    var k := 365.0 / dv as real;
    assert k > 0.0;
    if f > u {
      assert f / u > 1.0;
    } else {
      assert f / u <= 1.0;
    }
  }

  /** A bond that pairs has its row in the list. */
  lemma {:induction false} DlRowsOfComplete(bonds: seq<Bond>, book: seq<Quote>, venc: map<string, string>, cal: Calendar, i: int)
    requires 0 <= i < |bonds| && DlRowFor(bonds[i], book, venc, cal).Some?
    ensures DlRowFor(bonds[i], book, venc, cal).value in DlRowsOf(bonds, book, venc, cal)
    decreases |bonds|
  {
    if i < |bonds| - 1 {
      var init := bonds[..|bonds| - 1];
      assert init[i] == bonds[i];
      DlRowsOfComplete(init, book, venc, cal, i);
    }
  }

  /** Every row of the table pairs a listed bond with its own month's
      future at the rate `((F / (p / 100)) - 1) * (365 / dv)`, positive
      exactly when F > p / 100; and every bond that pairs has its row in
      the table. */
  lemma DlTableRows(bonds: seq<Bond>, book: seq<Quote>, venc: map<string, string>, cal: Calendar)
    ensures var table := SortByKey(DlRowsOf(bonds, book, venc, cal), DlDays);
            forall r :: r in table ==>
              (exists i :: 0 <= i < |bonds| && bonds[i].t == r.tickerLecap && bonds[i].dv == r.dias
                           && r.dias > 0 && r.precioLetra > 0.0 && r.precioFuturo > 0.0)
              && r.tna == DlTna(r.precioFuturo, r.precioLetra, r.dias)
              && (r.tna > 0.0 <==> r.precioFuturo > r.precioLetra / 100.0)
    ensures forall i :: 0 <= i < |bonds| && DlRowFor(bonds[i], book, venc, cal).Some? ==>
              DlRowFor(bonds[i], book, venc, cal).value in SortByKey(DlRowsOf(bonds, book, venc, cal), DlDays)
  {
    var rows := DlRowsOf(bonds, book, venc, cal);
    var table := SortByKey(rows, DlDays);
    DlRowsOfMembers(bonds, book, venc, cal);
    forall r | r in table
      ensures (exists i :: 0 <= i < |bonds| && bonds[i].t == r.tickerLecap && bonds[i].dv == r.dias
                           && r.dias > 0 && r.precioLetra > 0.0 && r.precioFuturo > 0.0)
              && r.tna == DlTna(r.precioFuturo, r.precioLetra, r.dias)
              && (r.tna > 0.0 <==> r.precioFuturo > r.precioLetra / 100.0)
    {
      assert r in multiset(table);
      assert r in rows;
      var i :| 0 <= i < |bonds| && DlRowFor(bonds[i], book, venc, cal) == Some(r);
      DlTnaSign(r.precioFuturo, r.precioLetra, r.dias);
    }
    forall i | 0 <= i < |bonds| && DlRowFor(bonds[i], book, venc, cal).Some?
      ensures DlRowFor(bonds[i], book, venc, cal).value in table
    {
      var r := DlRowFor(bonds[i], book, venc, cal).value;
      DlRowsOfComplete(bonds, book, venc, cal, i);
      assert r in multiset(rows);
    }
  }

  // ---------------------------------------------------------------------
  // LECAP rate converted to dollars

  datatype UsdRow = UsdRow(tickerLecap: string, tickerFuturo: string, dias: int,
                           tnaLecap: real, tnaUsd: Option<real>)

  /** `((1 + tna * d / 365) / (F / S) - 1) * (365 / d)`. */
  function UsdTna(tna: real, d: int, f: real, s: real): real
    requires d > 0 && f != 0.0 && s != 0.0
  {
    ((1.0 + tna * d as real / 365.0) / (f / s) - 1.0) * (365.0 / d as real)
  }

  /** Every bond with a truthy TNA, positive days and a formattable maturity
      gets a row; the dollar TNA is filled in only when the spot is truthy
      and the month's future has a positive price. */
  function UsdRowFor(b: Bond, book: seq<Quote>, spot: Option<real>, cal: Calendar): (r: Option<UsdRow>)
    ensures r.Some? <==> Truthy(b.tna) && b.dv > 0 && cal.codeEn(b.vto).Some?
    ensures r.Some? ==> r.value.tickerLecap == b.t && r.value.dias == b.dv && r.value.tnaLecap == b.tna.value
    ensures r.Some? ==> r.value.tickerFuturo == "DLR/" + Upper(cal.codeEn(b.vto).value)
    ensures r.Some? ==> (r.value.tnaUsd.Some? <==>
              Truthy(spot) && PriceOf(book, r.value.tickerFuturo).Some? && PriceOf(book, r.value.tickerFuturo).value > 0.0)
    ensures r.Some? && r.value.tnaUsd.Some? ==>
              r.value.tnaUsd.value == UsdTna(r.value.tnaLecap, r.value.dias, PriceOf(book, r.value.tickerFuturo).value, spot.value)
  {
    if !Truthy(b.tna) || b.dv <= 0 then None
    else if cal.codeEn(b.vto).None? then None
    else
      var ft := "DLR/" + Upper(cal.codeEn(b.vto).value);
      var f := PriceOf(book, ft);
      var usd := if Truthy(spot) && f.Some? && f.value > 0.0 then Some(UsdTna(b.tna.value, b.dv, f.value, spot.value)) else None;
      Some(UsdRow(b.t, ft, b.dv, b.tna.value, usd))
  }

  function UsdRowsOf(bonds: seq<Bond>, book: seq<Quote>, spot: Option<real>, cal: Calendar): seq<UsdRow>
    decreases |bonds|
  {
    if bonds == [] then []
    else
      var r := UsdRowFor(bonds[|bonds| - 1], book, spot, cal);
      UsdRowsOf(bonds[..|bonds| - 1], book, spot, cal) + (if r.Some? then [r.value] else [])
  }

  function UsdDays(r: UsdRow): int { r.dias }

  /** `TablaSinteticosUSD`: the spot is `DLR/CI`; rows by days. */
  method TablaSinteticosUSD(bonds: seq<Bond>, book: seq<Quote>, cal: Calendar) returns (rows: seq<UsdRow>)
    ensures rows == SortByKey(UsdRowsOf(bonds, book, PriceOf(book, "DLR/CI"), cal), UsdDays)
  {
    var spot := PriceOf(book, "DLR/CI");
    var calculados: seq<UsdRow> := [];
    var i := 0;
    while i < |bonds|
      invariant 0 <= i <= |bonds|
      invariant calculados == UsdRowsOf(bonds[..i], book, spot, cal)
    {
      assert bonds[..i + 1][..i] == bonds[..i];
      var r := UsdRowFor(bonds[i], book, spot, cal);
      if r.Some? {
        calculados := calculados + [r.value];
      }
      i := i + 1;
    }
    assert bonds[..|bonds|] == bonds;
    rows := SortByKey(calculados, UsdDays);
  }

  /** With the future equal to the spot there is no devaluation, and the
      dollar TNA equals the peso TNA. */
  lemma UsdTnaAtParity(tna: real, d: int, s: real)
    requires d > 0 && s != 0.0
    ensures UsdTna(tna, d, s, s) == tna
  {
    var dd := d as real;
    assert s / s == 1.0;
    assert (1.0 + tna * dd / 365.0) / 1.0 - 1.0 == tna * dd / 365.0;
    assert tna * dd / 365.0 * (365.0 / dd) == tna;
  }

  /** A qualifying bond has its row in the list. */
  lemma {:induction false} UsdRowsOfComplete(bonds: seq<Bond>, book: seq<Quote>, spot: Option<real>, cal: Calendar, i: int)
    requires 0 <= i < |bonds| && UsdRowFor(bonds[i], book, spot, cal).Some?
    ensures UsdRowFor(bonds[i], book, spot, cal).value in UsdRowsOf(bonds, book, spot, cal)
    decreases |bonds|
  {
    if i < |bonds| - 1 {
      var init := bonds[..|bonds| - 1];
      assert init[i] == bonds[i];
      UsdRowsOfComplete(init, book, spot, cal, i);
    }
  }

  lemma {:induction false} UsdRowsOfMembers(bonds: seq<Bond>, book: seq<Quote>, spot: Option<real>, cal: Calendar)
    ensures forall r :: r in UsdRowsOf(bonds, book, spot, cal) ==>
              exists i :: 0 <= i < |bonds| && UsdRowFor(bonds[i], book, spot, cal) == Some(r)
    decreases |bonds|
  {
    if bonds != [] {
      var init := bonds[..|bonds| - 1];
      UsdRowsOfMembers(init, book, spot, cal);
      assert forall i :: 0 <= i < |init| ==> init[i] == bonds[i];
    }
  }

  /** The table holds exactly the rows of the qualifying bonds (a truthy
      TNA, positive days, a formattable maturity), each bond's row with its
      dollar TNA `UsdTna(tna, dv, F, S)` when the spot is truthy and the
      month's future has a positive price, and no dollar TNA otherwise. */
  lemma UsdTableRows(bonds: seq<Bond>, book: seq<Quote>, cal: Calendar)
    ensures var spot := PriceOf(book, "DLR/CI");
            var table := SortByKey(UsdRowsOf(bonds, book, spot, cal), UsdDays);
            forall r :: r in table ==>
              exists i :: 0 <= i < |bonds| && UsdRowFor(bonds[i], book, spot, cal) == Some(r)
                && Truthy(bonds[i].tna) && bonds[i].dv > 0 && r.tickerLecap == bonds[i].t
                && (r.tnaUsd.Some? <==> Truthy(spot) && PriceOf(book, r.tickerFuturo).Some? && PriceOf(book, r.tickerFuturo).value > 0.0)
                && (r.tnaUsd.Some? ==> r.tnaUsd.value == UsdTna(r.tnaLecap, r.dias, PriceOf(book, r.tickerFuturo).value, spot.value))
    ensures var spot := PriceOf(book, "DLR/CI");
            forall i :: 0 <= i < |bonds| && Truthy(bonds[i].tna) && bonds[i].dv > 0 && cal.codeEn(bonds[i].vto).Some? ==>
              UsdRowFor(bonds[i], book, spot, cal).value in SortByKey(UsdRowsOf(bonds, book, spot, cal), UsdDays)
  {
    var spot := PriceOf(book, "DLR/CI");
    UsdTableSound(bonds, book, spot, cal);
    UsdTableComplete(bonds, book, spot, cal);
  }

  lemma UsdTableSound(bonds: seq<Bond>, book: seq<Quote>, spot: Option<real>, cal: Calendar)
    ensures var table := SortByKey(UsdRowsOf(bonds, book, spot, cal), UsdDays);
            forall r :: r in table ==>
              exists i :: 0 <= i < |bonds| && UsdRowFor(bonds[i], book, spot, cal) == Some(r)
                && Truthy(bonds[i].tna) && bonds[i].dv > 0 && r.tickerLecap == bonds[i].t
                && (r.tnaUsd.Some? <==> Truthy(spot) && PriceOf(book, r.tickerFuturo).Some? && PriceOf(book, r.tickerFuturo).value > 0.0)
                && (r.tnaUsd.Some? ==> r.tnaUsd.value == UsdTna(r.tnaLecap, r.dias, PriceOf(book, r.tickerFuturo).value, spot.value))
  {
    var rows := UsdRowsOf(bonds, book, spot, cal);
    var table := SortByKey(rows, UsdDays);
    UsdRowsOfMembers(bonds, book, spot, cal);
    forall r | r in table
      ensures exists i :: 0 <= i < |bonds| && UsdRowFor(bonds[i], book, spot, cal) == Some(r)
                && Truthy(bonds[i].tna) && bonds[i].dv > 0 && r.tickerLecap == bonds[i].t
                && (r.tnaUsd.Some? <==> Truthy(spot) && PriceOf(book, r.tickerFuturo).Some? && PriceOf(book, r.tickerFuturo).value > 0.0)
                && (r.tnaUsd.Some? ==> r.tnaUsd.value == UsdTna(r.tnaLecap, r.dias, PriceOf(book, r.tickerFuturo).value, spot.value))
    {
      assert r in multiset(table);
      assert r in rows;
      var i :| 0 <= i < |bonds| && UsdRowFor(bonds[i], book, spot, cal) == Some(r);
    }
  }

  lemma UsdTableComplete(bonds: seq<Bond>, book: seq<Quote>, spot: Option<real>, cal: Calendar)
    ensures forall i :: 0 <= i < |bonds| && Truthy(bonds[i].tna) && bonds[i].dv > 0 && cal.codeEn(bonds[i].vto).Some? ==>
              UsdRowFor(bonds[i], book, spot, cal).value in SortByKey(UsdRowsOf(bonds, book, spot, cal), UsdDays)
  {
    var rows := UsdRowsOf(bonds, book, spot, cal);
    var table := SortByKey(rows, UsdDays);
    forall i | 0 <= i < |bonds| && Truthy(bonds[i].tna) && bonds[i].dv > 0 && cal.codeEn(bonds[i].vto).Some?
      ensures UsdRowFor(bonds[i], book, spot, cal).value in table
    {
      var r := UsdRowFor(bonds[i], book, spot, cal).value;
      UsdRowsOfComplete(bonds, book, spot, cal, i);
      assert r in multiset(rows);
    }
  }

  /** One row per qualifying bond, in days order, whether or not its future
      exists. */
  lemma {:induction false} UsdRowsOfCount(bonds: seq<Bond>, book: seq<Quote>, spot: Option<real>, cal: Calendar)
    requires forall i :: 0 <= i < |bonds| ==> Truthy(bonds[i].tna) && bonds[i].dv > 0 && cal.codeEn(bonds[i].vto).Some?
    ensures |UsdRowsOf(bonds, book, spot, cal)| == |bonds|
    decreases |bonds|
  {
    if bonds != [] {
      UsdRowsOfCount(bonds[..|bonds| - 1], book, spot, cal);
    }
  }
}
