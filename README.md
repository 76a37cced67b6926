# Argentine bond and futures dashboard: a Dafny model

This project models the computational core of a Next.js dashboard for Argentine
fixed-income instruments and dollar futures, together with its two server
endpoints that proxy news feeds. It covers:

- the CSV news export endpoint (quote-aware line parser, header-to-record mapping, error path);
- the Python RSS endpoint (one record per `channel/item`, field defaults, 200 versus 500);
- the shared bond list operations every curve page uses:
  - realtime upsert and expiry removal;
  - latest update time;
  - slider maxima and ranges;
  - segment filters and maturity sort;
  - the BONAR-GLOBAL spread;
  - segment-then-maturity ordering;
- the per-page derivations:
  - CurvasBonos2, monitor, soberanos;
  - the older fixed-rate page, CER, LECAP;
  - CurvasBonos;
- the dollar-futures pages:
  - `getVtoInfo` in both variants;
  - the maturity map;
  - the futures table (three pages) and the dollar-linked pairing table;
  - the USD-equivalent rate table;
  - the futures quote book as an insertion-ordered keyed list;
- the FX monitor page:
  - expiration codes;
  - the market book and its realtime ticks;
  - the six category tables;
- the corporate-bond pages' dynamic column filter engine (numbers, dates, text), merge and slider;
- the bond yield calculator:
  - input sanitisers and number reading;
  - the exchange-rate fallback and the price conversion both ways;
  - the dual-bond leg choice and the what-if request;
  - the ticker search and the number formatter;
- the HTML report (sections, rows, columns, chart ids);
- the `slugify` path rule;
- the two last-payload stores.

Dates, clocks, locale formatting and calendar arithmetic are parameters:

- `timeOf` stands for `new Date(s).getTime()`;
- `Calendar` stands for "today", ISO parsing, month ends and month codes;
- `Env` stands for the cell date, `new Date(y, m, d)` and number display.

Network and database calls are replaced by their results, given as inputs:

- `Upstream` and `Fetch` values;
- history rows;
- realtime payloads.

Prices and rates are `real`, and a JavaScript `NaN`, `null` or `undefined` number is `None`.

Files: `common.dfy` (Common), `csv.dfy` (FinvizCsv), `rss.dfy` (YahooNews),
`bonds.dfy` (Bonds), `pages.dfy` (one module per page), `futures.dfy`
(Futures), `fx.dfy` (FxMonitor), `filters.dfy` (ColumnFilter),
`calculator.dfy` (Calculator), `report.dfy` (HtmlReport), `slug.dfy` (Slug),
`stores.dfy` (PayloadStores).

## Model

| member | source | states |
|---|---|---|
| Common.Trim | src/app/api/finviz/route.ts:38 | the result has no ECMAScript white space at either end and is no longer than the input |
| Common.TrimStrips | src/app/api/finviz/route.ts:38 | only white space is removed, and all of it at both ends: the result is a slice of the input with only ECMAScript white space outside it and none at either of its ends |
| Common.TrimOfTrimmed | src/app/api/finviz/route.ts:38 | trimming a trimmed string changes nothing |
| Common.Split | src/app/fx/page.tsx:58 | one-character split gives one more part than separators, none containing the separator |
| Common.SplitJoin | src/app/monitor/page.tsx:258 | splitting a join of separator-free parts gives the parts back |
| Common.ContainsLower | src/app/ons2/page.tsx:442 | a substring stays a substring after lower-casing both sides |
| Common.Upsert | src/app/monitor/page.tsx:268-275 | the new element is present; the length is kept exactly when the key existed, else the element is appended; other keys keep their elements in place |
| Common.UpsertKeepsKeysDistinct | src/app/monitor/page.tsx:268-275 | an upsert keeps keys distinct |
| Common.UpsertMembers | src/app/ondl/page.tsx:532-533 | after an upsert every element is the new one or an old one with another key |
| Common.UpsertSameKeyTwice | src/app/monitor/page.tsx:268-275 | a second upsert under the same key overrides the first |
| Common.SortWith | src/app/monitor/page.tsx:308-310 | the result is ordered under any total preorder and is a permutation of the input |
| Common.SortByKey | src/app/CurvasBonos2/page.tsx:506-508 | ascending by key, same multiset, same length |
| Common.StrLeTotal | src/app/fx/page.tsx:204 | code-unit order is total |
| Common.StrLeTransitive | src/app/fx/page.tsx:204 | code-unit order is transitive |
| Common.CodeUnitCollation | src/app/fx/page.tsx:218 | code-unit order is a total preorder, so it is one collation `localeCompare` may stand for |
| Common.MaxBy | src/app/RentaFijaArsViejo/page.tsx:206-210 | the maximum is attained and bounds every element |
| Common.Ceil | src/app/soberanosrf/page.tsx:242 | `Math.ceil`: the least integer not below x |
| FinvizCsv.ParseLine | src/app/api/finviz/route.ts:22-46 | a line yields at least one field, every field trimmed |
| FinvizCsv.ParseCsvLine | src/app/api/finviz/route.ts:27-45 | the character loop computes exactly ParseLine |
| FinvizCsv.ScanAppendsTrimmed | src/app/api/finviz/route.ts:37-44 | the scanner only appends trimmed fields and always appends the last |
| FinvizCsv.ParseLineWithoutQuotes | src/app/api/finviz/route.ts:27-44 | a quote-free line splits at every comma: n commas give n + 1 trimmed fields |
| FinvizCsv.ScanEscaped | src/app/api/finviz/route.ts:30-36 | inside quotes `""` yields one quote and a closing quote leaves the quoted state, commas inside kept |
| FinvizCsv.ParseQuotedLine | src/app/api/finviz/route.ts:29-42 | a line of quoted fields with doubled quotes reads back as the trimmed fields |
| FinvizCsv.ParseQuotedLineExact | src/app/api/finviz/route.ts:29-42 | for fields without surrounding white space the quoted round trip is exact |
| FinvizCsv.BuildRecord | src/app/api/finviz/route.ts:52-58 | the forEach over headers builds exactly Record |
| FinvizCsv.RecordShape | src/app/api/finviz/route.ts:53-57 | keys are the non-empty headers; each holds its column's value (the last column for a repeated header), '' for a short row |
| FinvizCsv.RecordKeys | src/app/api/finviz/route.ts:53-57 | record keys are exactly the non-empty header names |
| FinvizCsv.Records | src/app/api/finviz/route.ts:50-60 | one record per data line |
| FinvizCsv.RecordsAt | src/app/api/finviz/route.ts:50-51 | record i is the record of line i |
| FinvizCsv.HandleGet | src/app/api/finviz/route.ts:3-68 | the handler computes exactly Export |
| FinvizCsv.ExportOutcome | src/app/api/finviz/route.ts:10-12 | failure with 'Failed to fetch data' exactly when unreachable, not ok, or no non-blank line; otherwise one record per line after the header |
| FinvizCsv.RowsNotBlank | src/app/api/finviz/route.ts:20 | kept lines are not blank and at most one more than the newlines |
| YahooNews.Find | api/yahoo_news.py:27-29 | `find` returns a child with that tag, or None when no child has it |
| YahooNews.HandleGet | api/yahoo_news.py:7-46 | the item loop and writes compute exactly Respond |
| YahooNews.RespondStatus | api/yahoo_news.py:37-46 | status 200 with data exactly when the document was fetched and parsed, else 500 with the error text |
| YahooNews.RespondOnePerItem | api/yahoo_news.py:26-35 | one record per collected item, in document order |
| YahooNews.NewsDefaults | api/yahoo_news.py:27-29 | missing children give "No Title", "#", ""; a present child without text gives null |
| YahooNews.ChannelItemsExactly | api/yahoo_news.py:26 | collected elements are exactly the item children of channel children |
| YahooNews.SingleChannelOrder | api/yahoo_news.py:26 | with one channel, its items in order |
| Slug.SlugifyIsSlug | src/components/layout/Layout.tsx:8 | output is only [a-z0-9_-], has no `--` and no leading or trailing dash |
| Slug.SlugifyIdempotent | src/components/layout/Layout.tsx:8 | slugifying twice equals slugifying once |
| Slug.SlugFixpoint | src/app/monitor/page.tsx:85-92 | a slug is left unchanged |
| Slug.SpacesToDash | src/app/CurvasBonos2/page.tsx:89-91 | no white space remains, and every character is a dash or comes from the input |
| Slug.SpaceRunToDash | src/components/layout/Layout.tsx:8 | a maximal run of white space becomes exactly one dash |
| Slug.NonSpaceKept | src/components/layout/Layout.tsx:8 | a character that is not white space is kept in place |
| Slug.CollapseDashes | src/app/CurvasBonos2/page.tsx:89-91 | no two consecutive dashes remain |
| Slug.DropDashes | src/app/CurvasBonos2/page.tsx:89-91 | the result is a suffix of the input with no leading dash |
| Slug.DropDashesStrips | src/app/CurvasBonos2/page.tsx:89-91 | only leading dashes are removed, all of them: a suffix with only dashes before it and no leading dash |
| Slug.DropDashesEnd | src/app/CurvasBonos2/page.tsx:89-91 | the result is a prefix of the input with no trailing dash |
| Slug.DropDashesEndStrips | src/app/CurvasBonos2/page.tsx:89-91 | only trailing dashes are removed, all of them: a prefix with only dashes after it and no trailing dash |
| Bonds.UpsertBondFrame | src/app/RentaFijaArsViejo/page.tsx:173-176 | the list grows by at most one, earlier positions keep other tickers, and the length is kept exactly when the ticker existed |
| Bonds.ApplyRealtimeExpired | src/app/soberanosrf/page.tsx:161-163 | an expired row removes its ticker and adds nothing |
| Bonds.ApplyRealtimeLive | src/app/soberanosrf/page.tsx:165-170 | a live row is present, tickers stay distinct, and it replaces its ticker |
| Bonds.UasMembers | src/app/soberanosrf/page.tsx:210-214 | the collected timestamps are exactly the non-empty `ua` values |
| Bonds.ReduceFromNone | src/app/RentaFijaArsViejo/page.tsx:152-159 | the reduce from null gives null with no timestamp, else the first latest timestamp |
| Bonds.LatestUaAgree | src/app/RentaFijaArsViejo/page.tsx:152-159 | the `maxUA` reduce and the soberanos sort pick the same timestamp |
| Bonds.LatestUaIsMax | src/app/soberanosrf/page.tsx:210-222 | null exactly when no bond has `ua`; otherwise one of them and no earlier than any |
| Bonds.MaxDays | src/app/RentaFijaArsViejo/page.tsx:206-210 | 1000 with no bonds, else the attained maximum `dv` |
| Bonds.MaxDuration | src/app/soberanosrf/page.tsx:239-243 | 10 with no bonds, else the ceiling of the max `md ?? 0` |
| Bonds.ChartByDaysExactly | src/app/RentaFijaArsViejo/page.tsx:216 | chart points are exactly the bonds with `dv` in the inclusive range |
| Bonds.InitialDayRangeShowsAll | src/app/RentaFijaArsViejo/page.tsx:213-216 | the initial range [0, max] shows every bond with non-negative days |
| Bonds.ChartByDurationExactly | src/app/soberanosrf/page.tsx:249-255 | chart points have non-null `md` within the inclusive range |
| Bonds.InitialDurationRangeShowsAll | src/app/soberanosrf/page.tsx:245-255 | the initial duration range shows every bond with a non-negative duration |
| Bonds.BySegmentExactly | src/app/cer/page.tsx:139 | a segment filter keeps exactly the bonds of the listed segments |
| Bonds.BySegmentNone | src/app/CurvasBonos/page.tsx:84-87 | no listed segment, no rows |
| Bonds.LatestBatch | src/app/cer/page.tsx:138 | the first history row's bonds, or empty |
| Bonds.SortByVto | src/app/RentaFijaArsViejo/page.tsx:217 | a permutation sorted ascending by maturity |
| Bonds.BuildGlobalsByVto | src/app/soberanosrf/page.tsx:184-190 | the forEach fills exactly GlobalsIndex |
| Bonds.LastGlobal | src/app/soberanosrf/page.tsx:184-190 | the last GLOBAL with that maturity, or -1 when none |
| Bonds.GlobalsIndexLast | src/app/soberanosrf/page.tsx:184-190 | a maturity is a key exactly when a GLOBAL has it, mapped to the last such GLOBAL |
| Bonds.ComputeSpreads | src/app/soberanosrf/page.tsx:182-202 | the memo computes exactly DatosConSpread |
| Bonds.WithSpread | src/app/soberanosrf/page.tsx:191-202 | the map over the bonds keeps their number |
| Bonds.SpreadPairing | src/app/soberanosrf/page.tsx:191-202 | length and order kept; a BONAR with a same-maturity GLOBAL gets BONAR tir minus the last such GLOBAL's tir |
| Bonds.UnpairedUnchanged | src/app/soberanosrf/page.tsx:191-202 | a bond with no same-maturity GLOBAL is unchanged |
| Bonds.BySegmentThenVtoTotal | src/app/soberanosrf/page.tsx:229-237 | for any collation that is a total preorder, the segment-then-maturity comparator is a total preorder |
| Bonds.SortBySegmentThenVto | src/app/soberanosrf/page.tsx:229-237 | a permutation in which each segment collates no later than the next, and bonds whose segments collate equal are in maturity order |
| Bonds.GroupSegments | src/app/CurvasBonos2/page.tsx:476 | the first group of that name's segments, or none for an unknown name |
| Bonds.InFilterLists | src/app/monitor/page.tsx:258 | the realtime filter lists every segment, quoted, in order |
| CurvasBonos2Page.SelectedRows | src/app/CurvasBonos2/page.tsx:475-478 | the selected group's bonds of the latest batch; none for an unknown group |
| CurvasBonos2Page.MaxXValue | src/app/CurvasBonos2/page.tsx:481-494 | 10 or 1000 with no data; ceiling of max `md ?? 0` for Bonares, else max `dv` |
| CurvasBonos2Page.ChartPoints | src/app/CurvasBonos2/page.tsx:500-504 | exactly the rows whose x (duration for Bonares, else days) is non-null and within the inclusive range, whose ends may be fractional (the 0.1-year slider steps at :599) |
| CurvasBonos2Page.DaysViewIsDayRange | src/app/CurvasBonos2/page.tsx:500-504 | on whole-day bounds the days view is the shared day-range filter |
| CurvasBonos2Page.InitialRangeShowsAll | src/app/CurvasBonos2/page.tsx:496-504 | the reset range [0, maxXValue] shows every row with a non-negative x |
| CurvasBonos2Page.Table | src/app/CurvasBonos2/page.tsx:506-517 | each table holds exactly its group's bonds, sorted by maturity |
| CurvasBonos2Page.HeaderLinkIsPath | src/app/CurvasBonos2/page.tsx:120-139 | a title without an external site links to `/` + a slug |
| CurvasBonos2Page.IsToday | src/app/CurvasBonos2/page.tsx:82-85 | false for a missing timestamp; true only on the same day |
| MonitorPage.RequiredSegments | src/app/monitor/page.tsx:213-222 | both groups' segments concatenated in order |
| MonitorPage.RealtimeFilterLists | src/app/monitor/page.tsx:258 | the filter lists the required segments in double quotes |
| MonitorPage.TablesExactly | src/app/monitor/page.tsx:308-314 | each table holds exactly its group's bonds |
| SoberanosPage.RealtimeFilterLists | src/app/soberanosrf/page.tsx:156 | the filter lists the page's segments in single quotes |
| SoberanosPage.Table | src/app/soberanosrf/page.tsx:226-237 | a permutation of the spread list, ordered by segment under the collation, then by maturity among segments that collate equal |
| SoberanosPage.ChartPoints | src/app/soberanosrf/page.tsx:249-255 | points have `md` in range, spreads included |
| ArsViejoPage.OnLoad | src/app/RentaFijaArsViejo/page.tsx:150-162 | the list is replaced; for non-empty data the update time is the latest `ua`, for empty data it is kept |
| ArsViejoPage.OnRealtime | src/app/RentaFijaArsViejo/page.tsx:171-177 | upsert, and the update time becomes the row's `ua` or null |
| ArsViejoPage.LoadedUpdateIsLatest | src/app/RentaFijaArsViejo/page.tsx:152-159 | after a load the update time is no earlier than any bond's |
| CerPage.Rows | src/app/cer/page.tsx:138-139 | exactly the CER bonds of the newest batch |
| RentaFijaArsPage.Rows | src/app/RentaFijaArs/page.tsx:103-106 | exactly the LECAP-group bonds of the newest batch |
| CurvasBonosPage.SelectedRows | src/app/CurvasBonos/page.tsx:84-87 | the selected group's bonds; none for an unknown group |
| CurvasBonosPage.Table | src/app/CurvasBonos/page.tsx:101-110 | each table holds exactly its group's bonds, sorted by maturity |
| Futures.Get | src/app/ondl/page.tsx:231 | `Map.get`: None exactly when the ticker is absent, else the first entry with it |
| Futures.BuildBook | src/app/ondl/page.tsx:501-505 | the initial forEach builds exactly BookOf |
| Futures.BookOfDistinct | src/app/dlfx/page.tsx:481-484 | the book never holds a ticker twice |
| Futures.GetAgree | src/app/ondl/page.tsx:528-535 | two books that agree on where a ticker sits give the same lookup for it |
| Futures.OnQuoteGetSelf | src/app/ondl/page.tsx:528-535 | after a tick, its ticker maps to it |
| Futures.OnQuoteGetOther | src/app/ondl/page.tsx:528-535 | after a tick, every other ticker maps as before |
| Futures.GetVtoInfo | src/app/ondl/page.tsx:87-119 | days are never negative except the −1 error sentinel |
| Futures.GetVtoInfoCi | src/app/RentaFijaConFX/page.tsx:146-167 | days are never negative except the −1 error sentinel |
| Futures.ExactMaturityWins | src/app/dlfx/page.tsx:92-124 | a month with a known exact expiry uses it, clamped at 0 |
| Futures.MonthEndFallback | src/app/ondl/page.tsx:104-118 | without an exact expiry the month end is used, or the error sentinel |
| Futures.SpotAndNextDay | src/app/ondl/page.tsx:91-97 | a ticker with no month part or with `SPOT` gives (0, 'SPOT'); `24hs` gives (1, '24hs') |
| Futures.CiAndNextDay | src/app/RentaFijaConFX/page.tsx:148-154 | a ticker with no month part or with `CI` gives (0, 'CI'); `24hs` gives (1, '24hs') |
| Futures.MonthEndCi | src/app/RentaFijaConFX/page.tsx:156-166 | any other code counts to the end of the month it names, as written, clamped at 0, or gives the error sentinel |
| Futures.BuildVencimientos | src/app/ondl/page.tsx:451-456 | the loop builds exactly VencOf |
| Futures.VencOfKeys | src/app/dlfx/page.tsx:430-434 | keys are upper-cased tickers of complete rows, exactly; values non-empty |
| Futures.RowFor | src/app/ondl/page.tsx:239-252 | a listed future is eligible with days > 1, and has a TNA exactly when the spot is truthy |
| Futures.CheckQuote | src/app/ondl/page.tsx:239-252 | the per-ticker body computes exactly RowFor |
| Futures.TablaSinteticos | src/app/ondl/page.tsx:229-256 | the loop and sort compute exactly FuturesTable |
| Futures.RowsOfMembers | src/app/dlfx/page.tsx:222-234 | rows are exactly the RowFor results of the book's quotes |
| Futures.RowsOfSound | src/app/dlfx/page.tsx:222-234 | every row is the RowFor result of a quote in the book |
| Futures.RowsOfComplete | src/app/dlfx/page.tsx:222-234 | every quote whose RowFor result is a row has that row in the list |
| Futures.OneSlash | src/app/ondl/page.tsx:240-245 | a `DLR/` ticker with at most two parts has exactly one slash |
| Futures.FuturesTableMembers | src/app/RentaFijaConFX/page.tsx:178-202 | once the maturity map is loaded (always on ConFX) the table holds exactly the rows RowFor accepts, sorted by days |
| Futures.FuturesTableRows | src/app/ondl/page.tsx:235-255 | every row satisfies the eligibility rules and the TNA formula; every eligible quote is listed |
| Futures.FutureTnaSign | src/app/ondl/page.tsx:249-251 | the futures TNA is positive exactly when the future trades above spot |
| Futures.DlRowFor | src/app/ondl/page.tsx:333-360 | a bond is paired only with p > 0, dv > 0, a positive `DLR/<month>` price and an equal expiry string, and its TNA is `((F / (p / 100)) - 1) * (365 / dv)` |
| Futures.TablaSinteticosDL | src/app/ondl/page.tsx:331-382 | the loop and sort compute the paired rows sorted by days |
| Futures.DlRowsOfMembers | src/app/dlfx/page.tsx:314-341 | every row comes from a bond meeting the pairing rules |
| Futures.DlTnaSign | src/app/ondl/page.tsx:358-360 | the synthetic TNA is positive exactly when F > p/100 |
| Futures.DlRowsOfComplete | src/app/dlfx/page.tsx:350-357 | a bond that pairs has its row in the list |
| Futures.DlTableRows | src/app/dlfx/page.tsx:345-361 | each row comes from a bond with its ticker and days, has positive prices, the TNA formula, and a positive TNA exactly when F > p/100; every bond that pairs has its row in the table |
| Futures.UsdRowFor | src/app/RentaFijaConFX/page.tsx:280-323 | a row exactly for a bond with truthy tna, dv > 0 and a month code; tnaUsd present exactly with a truthy S and F > 0, and then `((1 + tna·d/365) / (F/S) - 1) · 365/d` |
| Futures.TablaSinteticosUSD | src/app/RentaFijaConFX/page.tsx:269-327 | the loop and sort compute the USD rows sorted by days |
| Futures.UsdTnaAtParity | src/app/RentaFijaConFX/page.tsx:305-314 | when F = S the USD rate equals the peso rate |
| Futures.UsdRowsOfCount | src/app/RentaFijaConFX/page.tsx:280-323 | when every bond qualifies, there is one row per bond, even without a future |
| Futures.UsdRowsOfComplete | src/app/RentaFijaConFX/page.tsx:316-323 | a qualifying bond has its row in the list |
| Futures.UsdRowsOfMembers | src/app/RentaFijaConFX/page.tsx:280-323 | every row in the list is the row of a listed bond |
| Futures.UsdTableRows | src/app/RentaFijaConFX/page.tsx:269-327 | the table holds exactly the rows of the qualifying bonds, each with its dollar TNA by the formula when S is truthy and F > 0, and none otherwise |
| FxMonitor.MonthIndex | src/app/fx/page.tsx:63-70 | a month code's index in ENE..DIC, None for other codes |
| FxMonitor.FindCode | src/app/fx/page.tsx:58-61 | the first `/` part shaped AAA99, None exactly when there is none |
| FxMonitor.GetExpirationDate | src/app/fx/page.tsx:57-79 | year 2000-2099 and month 0-11 when defined |
| FxMonitor.ExpirationRoundTrip | src/app/fx/page.tsx:64-75 | a ticker ending in the code of (year, month) yields that date |
| FxMonitor.ExpirationNone | src/app/fx/page.tsx:59-74 | no code part, or a code not a month, yields undefined |
| FxMonitor.BuildMarket | src/app/fx/page.tsx:146-154 | the forEach builds exactly MarketOf |
| FxMonitor.MarketOfEntries | src/app/fx/page.tsx:146-154 | distinct tickers, each entry from the last row with its ticker |
| FxMonitor.ApplyTickFrame | src/app/fx/page.tsx:167-176 | a tick sets only its own ticker; an empty ticker changes nothing |
| FxMonitor.SortedByTicker | src/app/fx/page.tsx:218-229 | a permutation in which each ticker collates no later than the next, under the collation `localeCompare` uses (a parameter, any total preorder) |
| FxMonitor.ClassifyExactly | src/app/fx/page.tsx:193-229 | each category holds exactly the matching items; the ORO, YPF/GGAL and AL30 tables are in collation order |
| FxMonitor.DlrPartition | src/app/fx/page.tsx:208-215 | every `DLR/` item is in exactly one of simple and complex; simple has one slash |
| FxMonitor.Rfx20AnyCase | src/app/fx/page.tsx:228 | the RFX20 match ignores letter case |
| FxMonitor.CompareDated | src/app/fx/page.tsx:197-199 | two dated items compare by date, antisymmetrically |
| FxMonitor.CompareSpotFirst | src/app/fx/page.tsx:201-203 | when the two items are not both dated, an item whose ticker contains SPOT sorts before one whose ticker does not, in both argument orders |
| FxMonitor.OutrightTicker | src/app/fx/page.tsx:209 | `DLR/` followed by a part with no slash starts with `DLR/` and has exactly one slash |
| FxMonitor.ExpirationAbr26 | src/app/fx/page.tsx:57-75 | `DLR/ABR26` expires in April 2026 (month index 3) |
| FxMonitor.ExpirationDic25 | src/app/fx/page.tsx:57-75 | `DLR/DIC25` expires in December 2025 (month index 11) |
| FxMonitor.ExpirationCi | src/app/fx/page.tsx:57-61 | `DLR/CI` has no month code, so no expiration |
| FxMonitor.CycleOutrights | src/app/fx/page.tsx:208-209 | `DLR/ABR26`, `DLR/CI` and `DLR/DIC25` all belong to the outright DLR table |
| FxMonitor.DateOrderCycle | src/app/fx/page.tsx:197-210 | three outright DLR items, `DLR/ABR26` (April 2026), `DLR/CI` (undated) and `DLR/DIC25` (December 2025): under any collation putting `DLR/ABR26` before `DLR/CI` before `DLR/DIC25`, the comparator has a cycle a < b, b < c and c < a |
| FxMonitor.DateOrderCycleCodeUnits | src/app/fx/page.tsx:197-210 | code-unit order is such a collation, so the cycle among the three outright DLR items occurs there too |
| ColumnFilter.DigitRun | src/app/ons2/page.tsx:405 | the leading run of digits is maximal |
| ColumnFilter.MaxDays | src/app/ons2/page.tsx:452-456 | 1000 when empty or any NaN, else the attained max |
| ColumnFilter.TableExactly | src/app/ons2/page.tsx:388-449 | the table is a reordering of exactly the rows every configured non-empty filter passes, each as often as in the input (all rows when no filter is set), sorted by maturity |
| ColumnFilter.NullCellRejects | src/app/ons2/page.tsx:398-399 | a non-empty filter on a null or missing cell rejects the row |
| ColumnFilter.ParseFloatDigits | src/app/ons2/page.tsx:405 | `parseFloat` of digits is their value |
| ColumnFilter.ParseFloatEmpty | src/app/ons2/page.tsx:405 | `parseFloat('')` is NaN |
| ColumnFilter.DecimalCell | src/app/ons2/page.tsx:403 | a text cell holding a decimal, signed or not, reads as that number, as `Number` does |
| ColumnFilter.MatchOpDigits | src/app/ons2/page.tsx:409 | the regex reads an operator and digits |
| ColumnFilter.OpPrefixOf | src/app/ons2/page.tsx:409 | the operator group takes exactly the operator written before a number |
| ColumnFilter.MatchOpNumber | src/app/ons2/page.tsx:409-410 | after the operator, a run of digits is captured as the number |
| ColumnFilter.OperatorFilters | src/app/ons2/page.tsx:409-420 | `>`, `<`, `>=`, `<=` and bare numbers compare as written |
| ColumnFilter.OperatorFilter | src/app/ons2/page.tsx:409-420 | one operator's comparison |
| ColumnFilter.RangeFilter | src/app/ons2/page.tsx:405-408 | an `a-b` range is inclusive, a zero or missing bound unbounded |
| ColumnFilter.NegativeOperandIsRange | src/app/ons2/page.tsx:405-408 | `<-d` is read as the range up to d |
| ColumnFilter.PercentScaled | src/app/ons/page.tsx:213-215 | a percentage column is compared ×100 |
| ColumnFilter.TextFilterFinds | src/app/ons2/page.tsx:440-442 | a text cell that contains the filter text literally passes the case-insensitive filter |
| ColumnFilter.ExactDate | src/app/ons2/page.tsx:434-438 | an exact date matches the day of `new Date(y, m-1, d)` |
| ColumnFilter.ExactDateNeedsAllParts | src/app/ons/page.tsx:252-259 | a zero or missing day, month or year rejects |
| ColumnFilter.UnparsableRangeEndRejects | src/app/ons2/page.tsx:424-432 | an unparsable range end rejects the row |
| ColumnFilter.OlderNumberFilterAgrees | src/app/ons/page.tsx:213-235 | on a cell that is already a number, the older page's number filter agrees with the newer page's |
| ColumnFilter.PagesAgree | src/app/ons/page.tsx:201-262 | the two corporate pages' filters agree on every column, except a number column holding text under a filter with neither a dash nor an operator |
| ColumnFilter.OlderSearchesCellText | src/app/ons/page.tsx:213-235 | there the older page searches the cell's own text, the newer page the text of the number it converts the cell to |
| ColumnFilter.NotAvailableCell | src/app/ons/page.tsx:213-235 | a number cell holding the text "N/D" passes the filter "n/d" on the older page and fails it on the newer one |
| ColumnFilter.TableOlderExactly | src/app/ons/page.tsx:194-262 | the older page's table is a reordering of exactly the rows its filters pass, each as often as in the input (all rows when no filter is set), sorted by maturity |
| ColumnFilter.MergeRowsShape | src/app/ons2/page.tsx:374-382 | same length and order, characteristics overlaid; unchanged if either side is empty |
| ColumnFilter.MergeBatchShape | src/app/ons/page.tsx:184-191 | empty unless the newest batch has data and the map is non-empty; then one overlaid row per row of that batch |
| ColumnFilter.SegmentRowsExactly | src/app/ons/page.tsx:195 | only rows of segment 'ON' |
| ColumnFilter.DayRangeExactly | src/app/ons2/page.tsx:463 | the slider view keeps exactly `dv` in range |
| Calculator.SanitizePrice | src/app/bonos/page.tsx:623 | only digits and commas remain |
| Calculator.SanitizePriceIdempotent | src/app/bonos/page.tsx:173 | sanitising twice equals sanitising once |
| Calculator.SanitizeRate | src/app/bonos/page.tsx:655 | only digits, commas and dots remain |
| Calculator.SanitizeRateIdempotent | src/app/bonos/page.tsx:655 | sanitising twice equals sanitising once |
| Calculator.ReplaceFirstComma | src/app/bonos/page.tsx:416 | replacing the first comma keeps the length |
| Calculator.NoCommaPrefix | src/app/bonos/page.tsx:416 | after a run of digits, the first comma becomes a dot and the rest is kept |
| Calculator.ParseFloatDecimal | src/app/bonos/page.tsx:416 | `parseFloat` reads `a.b` as the decimal a.b |
| Calculator.PriceDecimalComma | src/app/bonos/page.tsx:416 | a price typed `a,b` is read as the decimal a.b |
| Calculator.NeedsRateIffDiffer | src/app/bonos/page.tsx:343 | a rate is needed exactly when the currencies differ |
| Calculator.ExchangeRate | src/app/bonos/page.tsx:417 | the typed rate if non-zero, else the MEP rate, else 1 |
| Calculator.JsDecimalDigits | src/app/bonos/page.tsx:417 | `Number` reads a run of digits as its value |
| Calculator.TypedRateUsed | src/app/bonos/page.tsx:417 | a non-zero typed whole number is the rate |
| Calculator.CommaIsNaN | src/app/bonos/page.tsx:417 | a rate typed with a comma is NaN to `Number` |
| Calculator.CommaRateFallsBack | src/app/bonos/page.tsx:417 | so the MEP rate, or 1, is used instead |
| Calculator.PrecioFinal | src/app/bonos/page.tsx:416-425 | the price read and converted to the bond's currency |
| Calculator.PrecioRecibido | src/app/bonos/page.tsx:515-524 | the returned price converted back |
| Calculator.ConversionRoundTrip | src/app/bonos/page.tsx:518-524 | converting there and back gives the original price |
| Calculator.ConversionDirection | src/app/bonos/page.tsx:419-425 | divided by tc for ARS to a USD bond, multiplied for USD to an ARS bond, unchanged otherwise |
| Calculator.ChooseLeg | src/app/bonos/page.tsx:485-495 | the TAMAR leg only when its TIR is strictly higher; ties use the fixed leg |
| Calculator.WhatIfRequest | src/app/bonos/page.tsx:465-510 | a request only for results with flows (the TAMAR leg of a dual bond, `flujos_detallados` of a plain one), a numeric TIR sent /100 and a non-zero base; missing results or flows give the flows error, and then a non-numeric TIR gives the TIR error |
| Calculator.WhatIfUsesChosenLeg | src/app/bonos/page.tsx:481-510 | the request carries the chosen leg's flows and base |
| Calculator.SearchTickersExactly | src/app/bonos/page.tsx:565-568 | exactly the tickers whose code or description contains the text in any case |
| Calculator.FormatNumberAR | src/app/bonos/page.tsx:8-25 | a dash for null, undefined, NaN, and zero when asked; else the localized text |
| HtmlReport.FormatValue | src/utils/generateHTMLReport.ts:9-13 | a dash for null, undefined or non-finite; percentages scaled by 100 and suffixed with the unit (the same rule as `formatValue` in src/app/monitor/page.tsx and src/app/RentaFijaArs/page.tsx) |
| HtmlReport.Header | src/utils/generateHTMLReport.ts:195-202 | MD/Paridad exactly for Bonares and ONs, TNA/TEM otherwise |
| HtmlReport.RowCells | src/utils/generateHTMLReport.ts:205-216 | seven cells; `#e0f7fa` price background exactly when `pc`; green change when v ≥ 0 |
| HtmlReport.ChartId | src/utils/generateHTMLReport.ts:162 | `chart-` followed by ASCII letters and digits only |
| HtmlReport.ChartIdOfAlnum | src/utils/generateHTMLReport.ts:222 | an alphanumeric title is used as is |
| HtmlReport.ChartIdDropsOthers | src/utils/generateHTMLReport.ts:222 | other characters are dropped |
| HtmlReport.BodyContent | src/utils/generateHTMLReport.ts:168-227 | the loop appends exactly Sections |
| HtmlReport.SectionRows | src/utils/generateHTMLReport.ts:177-216 | one row per group bond, sorted by maturity, with the title's header |
| HtmlReport.GroupBondsMembers | src/utils/generateHTMLReport.ts:177-179 | a group's bonds are exactly those of its segments |
| HtmlReport.SectionChart | src/utils/generateHTMLReport.ts:186 | a chart container exactly when the title is not 'Obligaciones Negociables' |
| HtmlReport.SectionsFromGroups | src/utils/generateHTMLReport.ts:173-182 | every section comes from a group |
| HtmlReport.GroupsToSections | src/utils/generateHTMLReport.ts:173-182 | every group yielding a section appears |
| HtmlReport.NoSectionFor | src/utils/generateHTMLReport.ts:175-182 | skipped titles and empty groups give no section |
| PayloadStores.RecibirPost | src/app/api/recibir/route.ts:7-19 | an array replaces and is echoed; otherwise 400 and unchanged |
| PayloadStores.RecibirStore.constructor | src/app/api/recibir/route.ts:5 | the store starts as null |
| PayloadStores.RecibirStore.Post | src/app/api/recibir/route.ts:7-19 | the handler changes the store as RecibirPost says |
| PayloadStores.RecibirStore.Get | src/app/api/recibir/route.ts:21-23 | `{ultimoPost}` |
| PayloadStores.RecibirHoldsLastArray | src/app/api/recibir/route.ts:5-15 | GET returns the last accepted array, null if none |
| PayloadStores.RecibirRefusedKeeps | src/app/api/recibir/route.ts:10-18 | a refused POST leaves GET unchanged |
| PayloadStores.RootPost | route.ts:5-18 | an array replaces and answers ok; otherwise 400 and unchanged |
| PayloadStores.RootStore.constructor | route.ts:3 | the store starts empty |
| PayloadStores.RootStore.Post | route.ts:5-18 | the handler changes the store as RootPost says |
| PayloadStores.RootStore.Get | route.ts:20-22 | `{datos}` |
| PayloadStores.PostThenGet | route.ts:8-11 | GET after an accepted POST returns exactly that array |
| PayloadStores.PostIdempotent | src/app/api/recibir/route.ts:13 | posting the same body twice equals posting it once |

## Left out

- Network, database and realtime I/O: the fetches, the Supabase queries and channels, and the visibility-change resubscription. Their results are inputs; only the updaters passed to the setters are modelled.
- Rendering: React and the charts (Plotly and recharts), styles, tooltips and sliders. The report's HTML is modelled as its structure (sections, headers, cells with colours), not as text with whitespace. Its `<head>`, styles and embedded chart script are not modelled.
- Trendlines: the log-linear regression in the report script and in the chart components, which is floating-point numerics.
- The TEM `Math.pow` column, and all rounding.
- Locale and time zones: `toLocaleString`, `toFixed`, `toLocaleDateString` and the date-fns calls are parameters. The month-code formatting is a parameter too.
- `new Date(s)` parsing is a parameter `timeOf`. An invalid date (NaN time) in a sort is not modelled.
- Letter case: lower-casing and upper-casing are ASCII-only. Non-ASCII letters are left unchanged.
- The regex `\s` and `trim`: follow the ECMAScript white-space set.
- ColumnFilter.ParseFloat: exponents, `Infinity` and hexadecimal are not modelled.
- ColumnFilter.JsDecimal: exponents, hexadecimal and `Infinity` in `Number` are not modelled; such text reads as NaN (None). This covers the exchange-rate text and text cells of the corporate-bond tables.
- ColumnFilter.JsNumber: fractional, signed or hexadecimal date parts are not modelled.
- ColumnFilter.Passes: a date column holding a number is not modelled.
- The corporate-bond pages: the memoised array is sorted in place. Here the table is a sorted copy, so the aliasing with the merged list is not captured.
- The characteristics map build: network I/O, so its result is an input.
- FxMonitor.SortedByTicker: `localeCompare` is a parameter `collate`, assumed only to be a total preorder. The browser's ICU collation itself (case, accent and punctuation weights) is not modelled; code-unit order is proved to be one admissible instance (Common.CodeUnitCollation).
- Bonds.SortBySegmentThenVto: the segment comparison is the same `collate` parameter, with the same limit.
- FinvizCsv.Records: a record is a map from header to value, so the key order of the JavaScript object (header order) is not captured.
- FxMonitor: the market book is an insertion-ordered list of distinct tickers. JavaScript orders integer-like object keys first; that is not modelled.
- FxMonitor.Classify: the DLR and RFX20 tables are not given an order. Their comparator has a cycle (FxMonitor.DateOrderCycle), so the result of `Array.prototype.sort` depends on the engine's algorithm.
- Calculator.FormatNumberAR: `Infinity` is formatted by the locale in the source and is not modelled. None stands for null, undefined and NaN.
- Calculator: only the first comma in a price or TIR becomes a decimal point (`replace(',', '.')`). The model keeps that behaviour.
- Calculator: the CER, TAMAR and DL fetches before the POST are not modelled, nor is the alert on missing characteristics.
- Source constructs that do not compile are modelled by their evident logic:
  - `#const` and a missing `useMemo` import in src/app/ons/page.tsx;
  - duplicate imports in src/app/RentaFijaConFX/page.tsx;
  - empty component bodies in src/app/CurvasBonos/page.tsx;
  - `b.dias_vto` against the declared `dv` in src/app/cer/page.tsx.
- The older corporate page differs from the newer one in its number columns: it does not convert the cell, so its substring fallback searches the cell's own text (ColumnFilter.PassesOlder, ColumnFilter.TableOlder). It also has no NaN checks on range ends, but comparisons with NaN are false, so there it behaves like the newer page.
- An unconfigured filter key would crash the older corporate page. It cannot arise, because filters only hold configured columns.
- Auth, navigation glue, login pages, the home page's week fetch, the PDF overlays and the TradingView and Power BI embeds are not part of this model.
