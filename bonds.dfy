/** The bond rows every curve page works on, and the list operations the
    pages share: the realtime upsert, expiry removal, the latest-update
    reductions, the day and duration maxima behind the sliders, the slider
    range filters, segment filters, the sort by maturity and the
    BONAR-GLOBAL spread. */
module Bonds {
  import opened Common

  /** One bond row. Pages that name the columns ticker/segmento/dias_vto/
      precio/modify_duration use the same fields. `vto` and `ua` stay the
      strings the database sends; the pages compare them through `Date`,
      which the model takes as a parameter `timeOf`. */
  datatype Bond = Bond(
    t: string,             // ticker
    vto: string,           // maturity date
    p: Option<real>,       // price
    tir: real,             // yield to maturity
    tna: Option<real>,     // nominal annual rate
    tem: Option<real>,     // effective monthly rate
    v: real,               // daily change
    s: string,             // segment
    dv: int,               // days to maturity
    md: Option<real>,      // modified duration
    pd: Option<real>,      // parity
    ua: Option<string>,    // last update timestamp
    pc: bool,              // price changed in the last tick
    spread: Option<real>)  // filled in for BONARs only

  function Ticker(b: Bond): string { b.t }

  // ---------------------------------------------------------------------
  // Realtime updates

  /** A realtime row replaces the bond with the same ticker, or is appended
      when the list has none. */
  function UpsertBond(bonds: seq<Bond>, b: Bond): seq<Bond> {
    Upsert(bonds, b, Ticker)
  }

  /** The upsert leaves every other bond in place and lets the list grow by
      at most the one new row. */
  lemma UpsertBondFrame(bonds: seq<Bond>, b: Bond)
    ensures |UpsertBond(bonds, b)| <= |bonds| + 1
    ensures UpsertBond(bonds, b)[..|bonds|] ==
              seq(|bonds|, i requires 0 <= i < |bonds| => if bonds[i].t == b.t then b else bonds[i])
    ensures (exists i :: 0 <= i < |bonds| && bonds[i].t == b.t) <==> |UpsertBond(bonds, b)| == |bonds|
  {
    var r := UpsertBond(bonds, b);
    assert HasKey(bonds, b.t, Ticker) <==> exists i :: 0 <= i < |bonds| && bonds[i].t == b.t;
    if |r| != |bonds| {
      forall i | 0 <= i < |bonds| ensures bonds[i].t != b.t {
        assert Ticker(bonds[i]) != Ticker(b);
      }
    }
  }

  predicate Expired(b: Bond, now: int, timeOf: string -> int) {
    timeOf(b.vto) < now
  }

  /** The soberanos realtime updater: a row whose maturity is already past
      removes its ticker; any other row is upserted. */
  function ApplyRealtime(bonds: seq<Bond>, b: Bond, now: int, timeOf: string -> int): seq<Bond> {
    if Expired(b, now, timeOf) then Filter(bonds, (x: Bond) => x.t != b.t)
    else UpsertBond(bonds, b)
  }

  /** An expired row leaves exactly the bonds of other tickers, in their
      order, and adds nothing. */
  lemma ApplyRealtimeExpired(bonds: seq<Bond>, b: Bond, now: int, timeOf: string -> int)
    requires Expired(b, now, timeOf)
    ensures forall x :: x in ApplyRealtime(bonds, b, now, timeOf) <==> x in bonds && x.t != b.t
    ensures forall x :: x in ApplyRealtime(bonds, b, now, timeOf) ==> x.t != b.t
    ensures (forall x :: x in bonds ==> x.t != b.t) ==> ApplyRealtime(bonds, b, now, timeOf) == bonds
  {
    FilterMembers(bonds, (x: Bond) => x.t != b.t);
    if forall x :: x in bonds ==> x.t != b.t {
      FilterKeepsAll(bonds, (x: Bond) => x.t != b.t);
    }
  }

  /** A live row is in the list afterwards, in place of every bond with its
      ticker, and a list of distinct tickers stays so. */
  lemma ApplyRealtimeLive(bonds: seq<Bond>, b: Bond, now: int, timeOf: string -> int)
    requires !Expired(b, now, timeOf)
    requires DistinctKeys(bonds, Ticker)
    ensures b in ApplyRealtime(bonds, b, now, timeOf)
    ensures DistinctKeys(ApplyRealtime(bonds, b, now, timeOf), Ticker)
    ensures forall x :: x in ApplyRealtime(bonds, b, now, timeOf) && x.t == b.t ==> x == b
  {
    UpsertKeepsKeysDistinct(bonds, b, Ticker);
    var r := ApplyRealtime(bonds, b, now, timeOf);
    forall x | x in r && x.t == b.t ensures x == b {
      var i :| 0 <= i < |r| && r[i] == x;
      assert Ticker(r[i]) == Ticker(b);
    }
  }

  // ---------------------------------------------------------------------
  // The latest update time

  /** `!!ua`: a present, non-empty timestamp. */
  predicate HasUa(b: Bond) { b.ua.Some? && b.ua.value != "" }

  /** The non-empty `ua` values in list order. */
  function Uas(bonds: seq<Bond>): (r: seq<string>)
    ensures |r| <= |bonds|
  {
    if bonds == [] then []
    else (if HasUa(bonds[0]) then [bonds[0].ua.value] else []) + Uas(bonds[1..])
  }

  lemma {:induction false} UasMembers(bonds: seq<Bond>)
    ensures forall u :: u in Uas(bonds) <==> exists i :: 0 <= i < |bonds| && HasUa(bonds[i]) && bonds[i].ua.value == u
  {
    if bonds != [] {
      UasMembers(bonds[1..]);
      assert forall i :: 1 <= i < |bonds| ==> bonds[i] == bonds[1..][i - 1];
      forall u | exists i :: 0 <= i < |bonds| && HasUa(bonds[i]) && bonds[i].ua.value == u
        ensures u in Uas(bonds)
      {
        var i :| 0 <= i < |bonds| && HasUa(bonds[i]) && bonds[i].ua.value == u;
        if i > 0 {
          assert HasUa(bonds[1..][i - 1]) && bonds[1..][i - 1].ua.value == u;
        }
      }
    }
  }

  /** Later timestamps get smaller keys, so an ascending sort by this key
      is the descending sort by time. */
  function NegTime(timeOf: string -> int): string -> int {
    (u: string) => -timeOf(u)
  }

  /** One step of the `maxUA` reduce: a row with a timestamp strictly later
      than the accumulator (or the first timestamp seen) replaces it. */
  function LaterUa(acc: Option<string>, b: Bond, timeOf: string -> int): Option<string> {
    if !HasUa(b) then acc
    else if acc.None? || timeOf(b.ua.value) > timeOf(acc.value) then Some(b.ua.value)
    else acc
  }

  /** `bonds.reduce(LaterUa, acc)`. */
  function ReduceLatestUa(acc: Option<string>, bonds: seq<Bond>, timeOf: string -> int): Option<string>
    decreases |bonds|
  {
    if bonds == [] then acc else ReduceLatestUa(LaterUa(acc, bonds[0], timeOf), bonds[1..], timeOf)
  }

  /** The soberanos variant: sort the timestamps from latest to earliest and
      take the first one, or null when there is none. */
  function LatestUaBySort(bonds: seq<Bond>, timeOf: string -> int): Option<string> {
    var uas := Uas(bonds);
    if uas == [] then None else Some(SortByKey(uas, NegTime(timeOf))[0])
  }

  lemma {:induction false} ReduceFromSome(a: string, bonds: seq<Bond>, timeOf: string -> int)
    ensures ReduceLatestUa(Some(a), bonds, timeOf) == Some(FirstMinBy([a] + Uas(bonds), NegTime(timeOf)))
    decreases |bonds|
  {
    var key := NegTime(timeOf);
    if bonds == [] {
      assert [a] + Uas(bonds) == [a];
    } else {
      var rest := Uas(bonds[1..]);
      var c := LaterUa(Some(a), bonds[0], timeOf).value;
      ReduceFromSome(c, bonds[1..], timeOf);
      if HasUa(bonds[0]) {
        var u := bonds[0].ua.value;
        assert Uas(bonds) == [u] + rest;
        FirstMinByPair(a, u, rest, key);
      } else {
        assert Uas(bonds) == rest;
      }
    }
  }

  /** The reduce and the sort pick the same timestamp: the earliest listed
      one among those with the latest time. */
  lemma {:induction false} LatestUaAgree(bonds: seq<Bond>, timeOf: string -> int)
    ensures ReduceLatestUa(None, bonds, timeOf) == LatestUaBySort(bonds, timeOf)
  {
    var uas := Uas(bonds);
    if uas != [] {
      SortByKeyHead(uas, NegTime(timeOf));
    }
    ReduceFromNone(bonds, timeOf);
  }

  lemma {:induction false} ReduceFromNone(bonds: seq<Bond>, timeOf: string -> int)
    ensures Uas(bonds) == [] ==> ReduceLatestUa(None, bonds, timeOf) == None
    ensures Uas(bonds) != [] ==>
              ReduceLatestUa(None, bonds, timeOf) == Some(FirstMinBy(Uas(bonds), NegTime(timeOf)))
    decreases |bonds|
  {
    if bonds != [] {
      assert ReduceLatestUa(None, bonds, timeOf) ==
             ReduceLatestUa(LaterUa(None, bonds[0], timeOf), bonds[1..], timeOf);
      if HasUa(bonds[0]) {
        assert Uas(bonds) == [bonds[0].ua.value] + Uas(bonds[1..]);
        ReduceFromSome(bonds[0].ua.value, bonds[1..], timeOf);
      } else {
        assert Uas(bonds) == Uas(bonds[1..]);
        ReduceFromNone(bonds[1..], timeOf);
      }
    }
  }

  /** The latest update is null exactly when no bond has a timestamp;
      otherwise it is the timestamp of some bond and no bond's timestamp is
      later. */
  lemma LatestUaIsMax(bonds: seq<Bond>, timeOf: string -> int)
    ensures var r := LatestUaBySort(bonds, timeOf);
            (r.None? <==> forall i :: 0 <= i < |bonds| ==> !HasUa(bonds[i]))
            && (r.Some? ==> exists i :: 0 <= i < |bonds| && HasUa(bonds[i]) && bonds[i].ua.value == r.value)
            && (r.Some? ==> forall i :: 0 <= i < |bonds| && HasUa(bonds[i]) ==> timeOf(bonds[i].ua.value) <= timeOf(r.value))
  {
    var uas := Uas(bonds);
    UasMembers(bonds);
    forall i | 0 <= i < |bonds| && HasUa(bonds[i]) ensures uas != [] {
      assert bonds[i].ua.value in uas;
    }
    if uas != [] {
      var key := NegTime(timeOf);
      SortByKeyHead(uas, key);
      var u := FirstMinBy(uas, key);
      assert LatestUaBySort(bonds, timeOf) == Some(u);
      assert u in uas;
      forall i | 0 <= i < |bonds| && HasUa(bonds[i]) ensures timeOf(bonds[i].ua.value) <= timeOf(u) {
        assert bonds[i].ua.value in uas;
        var j :| 0 <= j < |uas| && uas[j] == bonds[i].ua.value;
        assert key(u) <= key(uas[j]);
      }
    }
  }

  // ---------------------------------------------------------------------
  // Slider bounds and ranges

  /** Max days for the day slider: 1000 with no bonds, else the largest
      days to maturity. */
  function MaxDays(bonds: seq<Bond>): (m: int)
    ensures bonds == [] ==> m == 1000
    ensures bonds != [] ==> exists i :: 0 <= i < |bonds| && bonds[i].dv == m
    ensures forall i :: 0 <= i < |bonds| ==> bonds[i].dv <= m
  {
    if bonds == [] then 1000
    else
      var m := MaxBy(bonds, (b: Bond) => b.dv as real);
      assert exists i :: 0 <= i < |bonds| && bonds[i].dv as real == m;
      m.Floor
  }

  /** `md ?? 0`. */
  function MdOrZero(b: Bond): real { if b.md.Some? then b.md.value else 0.0 }

  /** Max duration for the duration slider: 10 with no bonds, else the
      ceiling of the largest duration, a missing one counted as 0. */
  function MaxDuration(bonds: seq<Bond>): (m: int)
    ensures bonds == [] ==> m == 10
    ensures forall i :: 0 <= i < |bonds| ==> MdOrZero(bonds[i]) <= m as real
    ensures bonds != [] ==> exists i :: 0 <= i < |bonds| && (m - 1) as real < MdOrZero(bonds[i])
  {
    if bonds == [] then 10 else Ceil(MaxBy(bonds, MdOrZero))
  }

  predicate DaysInRange(b: Bond, lo: int, hi: int) { lo <= b.dv <= hi }

  /** The chart points of the day slider. */
  function ChartByDays(bonds: seq<Bond>, lo: int, hi: int): seq<Bond> {
    Filter(bonds, (b: Bond) => DaysInRange(b, lo, hi))
  }

  /** Chart points are exactly the bonds with days to maturity in the
      inclusive range. */
  lemma ChartByDaysExactly(bonds: seq<Bond>, lo: int, hi: int)
    ensures forall b :: b in ChartByDays(bonds, lo, hi) <==> b in bonds && lo <= b.dv <= hi
  {
    FilterMembers(bonds, (b: Bond) => DaysInRange(b, lo, hi));
  }

  /** The slider starts at [0, MaxDays], which shows every bond that has
      not matured. */
  lemma InitialDayRangeShowsAll(bonds: seq<Bond>)
    requires forall i :: 0 <= i < |bonds| ==> bonds[i].dv >= 0
    ensures ChartByDays(bonds, 0, MaxDays(bonds)) == bonds
  {
    FilterKeepsAll(bonds, (b: Bond) => DaysInRange(b, 0, MaxDays(bonds)));
  }

  /** `md !== null && md >= lo && md <= hi`. */
  predicate DurationInRange(b: Bond, lo: real, hi: real) {
    b.md.Some? && lo <= b.md.value <= hi
  }

  function ChartByDuration(bonds: seq<Bond>, lo: real, hi: real): seq<Bond> {
    Filter(bonds, (b: Bond) => DurationInRange(b, lo, hi))
  }

  /** Chart points have a duration, and it lies in the inclusive range. */
  lemma ChartByDurationExactly(bonds: seq<Bond>, lo: real, hi: real)
    ensures forall b :: b in ChartByDuration(bonds, lo, hi) <==>
              b in bonds && b.md.Some? && lo <= b.md.value <= hi
  {
    FilterMembers(bonds, (b: Bond) => DurationInRange(b, lo, hi));
  }

  /** With the slider at [0, MaxDuration], every bond with a non-negative
      duration is drawn. */
  lemma InitialDurationRangeShowsAll(bonds: seq<Bond>)
    requires forall i :: 0 <= i < |bonds| ==> bonds[i].md.Some? && bonds[i].md.value >= 0.0
    ensures ChartByDuration(bonds, 0.0, MaxDuration(bonds) as real) == bonds
  {
    FilterKeepsAll(bonds, (b: Bond) => DurationInRange(b, 0.0, MaxDuration(bonds) as real));
  }

  // ---------------------------------------------------------------------
  // Segments, batches and ordering

  /** `bonds.filter(b => segments.includes(b.s))`. */
  function BySegment(bonds: seq<Bond>, segments: seq<string>): seq<Bond> {
    Filter(bonds, (b: Bond) => b.s in segments)
  }

  /** A segment table holds exactly the bonds whose segment is listed, each
      no more often than in the source list. */
  lemma BySegmentExactly(bonds: seq<Bond>, segments: seq<string>)
    ensures forall b :: b in BySegment(bonds, segments) <==> b in bonds && b.s in segments
    ensures multiset(BySegment(bonds, segments)) <= multiset(bonds)
  {
    FilterMembers(bonds, (b: Bond) => b.s in segments);
  }

  /** No listed segment, no rows. */
  lemma {:induction false} BySegmentNone(bonds: seq<Bond>)
    ensures BySegment(bonds, []) == []
  {
    if bonds != [] {
      BySegmentNone(bonds[1..]);
    }
  }

  /** A row of the history table: `datos` is null for a row without data. */
  datatype Snapshot = Snapshot(datos: Option<seq<Bond>>)

  /** The first (newest) history row's bonds, or none. */
  function LatestBatch(history: seq<Snapshot>): (r: seq<Bond>)
    ensures history == [] || history[0].datos.None? ==> r == []
    ensures history != [] && history[0].datos.Some? ==> r == history[0].datos.value
  {
    if |history| > 0 && history[0].datos.Some? then history[0].datos.value else []
  }

  /** `[...bonds].sort((a, b) => Date(a.vto) - Date(b.vto))`. */
  function SortByVto(bonds: seq<Bond>, timeOf: string -> int): (r: seq<Bond>)
    ensures multiset(r) == multiset(bonds)
    ensures forall i, j :: 0 <= i < j < |r| ==> timeOf(r[i].vto) <= timeOf(r[j].vto)
  {
    SortByKey(bonds, (b: Bond) => timeOf(b.vto))
  }

  // ---------------------------------------------------------------------
  // BONAR-GLOBAL spread

  predicate GlobalFor(b: Bond, vto: string) { b.s == "GLOBAL" && b.vto == vto }

  /** The `globalesPorVto` map: each GLOBAL under its maturity, a later
      GLOBAL overwriting an earlier one. */
  function GlobalsIndex(bonds: seq<Bond>): map<string, Bond>
    decreases |bonds|
  {
    if bonds == [] then map[]
    else
      var last := bonds[|bonds| - 1];
      var m := GlobalsIndex(bonds[..|bonds| - 1]);
      if last.s == "GLOBAL" then m[last.vto := last] else m
  }

  /** The `forEach` that fills the map. */
  method BuildGlobalsByVto(bonds: seq<Bond>) returns (m: map<string, Bond>)
    ensures m == GlobalsIndex(bonds)
  {
    m := map[];
    var i := 0;
    while i < |bonds|
      invariant 0 <= i <= |bonds|
      invariant m == GlobalsIndex(bonds[..i])
    {
      assert bonds[..i + 1][..i] == bonds[..i];
      if bonds[i].s == "GLOBAL" {
        m := m[bonds[i].vto := bonds[i]];
      }
      i := i + 1;
    }
    assert bonds[..|bonds|] == bonds;
  }

  /** The position of the last GLOBAL with this maturity, -1 when there is
      none. */
  function LastGlobal(bonds: seq<Bond>, vto: string): (j: int)
    ensures -1 <= j < |bonds|
    ensures j >= 0 ==> GlobalFor(bonds[j], vto)
    ensures forall k :: j < k < |bonds| ==> !GlobalFor(bonds[k], vto)
    decreases |bonds|
  {
    if bonds == [] then -1
    else if GlobalFor(bonds[|bonds| - 1], vto) then |bonds| - 1
    else
      var init := bonds[..|bonds| - 1];
      assert forall k :: 0 <= k < |init| ==> init[k] == bonds[k];
      LastGlobal(init, vto)
  }

  /** A maturity is in the map exactly when some GLOBAL has it, and it maps
      to the last such GLOBAL. */
  lemma {:induction false} GlobalsIndexLast(bonds: seq<Bond>, vto: string)
    ensures vto in GlobalsIndex(bonds) <==> LastGlobal(bonds, vto) >= 0
    ensures vto in GlobalsIndex(bonds) ==> GlobalsIndex(bonds)[vto] == bonds[LastGlobal(bonds, vto)]
    decreases |bonds|
  {
    if bonds != [] {
      GlobalsIndexLast(bonds[..|bonds| - 1], vto);
    }
  }

  /** A BONAR with a GLOBAL of the same maturity gets spread = BONAR tir -
      GLOBAL tir; every other bond is returned as it was. */
  function SpreadOf(b: Bond, globals: map<string, Bond>): Bond {
    if b.s == "BONAR" && b.vto in globals then b.(spread := Some(b.tir - globals[b.vto].tir)) else b
  }

  function WithSpread(bonds: seq<Bond>, globals: map<string, Bond>): (r: seq<Bond>)
    ensures |r| == |bonds|
  {
    seq(|bonds|, i requires 0 <= i < |bonds| => SpreadOf(bonds[i], globals))
  }

  /** `datosConSpread`. */
  function DatosConSpread(bonds: seq<Bond>): seq<Bond> {
    WithSpread(bonds, GlobalsIndex(bonds))
  }

  /** The `datosConSpread` memo: build the map, then map every bond through
      it. */
  method ComputeSpreads(bonds: seq<Bond>) returns (r: seq<Bond>)
    ensures r == DatosConSpread(bonds)
  {
    var globals := BuildGlobalsByVto(bonds);
    r := WithSpread(bonds, globals);
  }

  /** Length and order are kept; only a BONAR with a GLOBAL of identical
      maturity changes, only in its spread, which becomes its yield minus the
      yield of the last such GLOBAL in the list. */
  lemma SpreadPairing(bonds: seq<Bond>, i: int)
    requires 0 <= i < |bonds|
    ensures |DatosConSpread(bonds)| == |bonds|
    ensures var j := LastGlobal(bonds, bonds[i].vto);
            DatosConSpread(bonds)[i] ==
              if bonds[i].s == "BONAR" && j >= 0 then bonds[i].(spread := Some(bonds[i].tir - bonds[j].tir))
              else bonds[i]
  {
    var b := bonds[i];
    var g := GlobalsIndex(bonds);
    var j := LastGlobal(bonds, b.vto);
    GlobalsIndexLast(bonds, b.vto);
    SpreadAt(bonds, g, i);
    if b.s == "BONAR" && j >= 0 {
      assert SpreadOf(b, g) == b.(spread := Some(b.tir - bonds[j].tir));
    } else {
      assert SpreadOf(b, g) == b;
    }
  }

  lemma SpreadAt(bonds: seq<Bond>, globals: map<string, Bond>, i: int)
    requires 0 <= i < |bonds|
    ensures WithSpread(bonds, globals)[i] == SpreadOf(bonds[i], globals)
  {
  }

  /** A bond whose maturity no GLOBAL shares keeps the spread it had. */
  lemma UnpairedUnchanged(bonds: seq<Bond>, i: int)
    requires 0 <= i < |bonds|
    requires forall k :: 0 <= k < |bonds| ==> !GlobalFor(bonds[k], bonds[i].vto)
    ensures DatosConSpread(bonds)[i] == bonds[i]
  {
    GlobalsIndexLast(bonds, bonds[i].vto);
  }

  // ---------------------------------------------------------------------
  // Segment, then maturity

  /** The soberanos table comparator: `a.s.localeCompare(b.s)` first, and
      the maturity when the segments collate equal. `collate` stands for
      `localeCompare(..) <= 0` under the browser's collation. */
  function BySegmentThenVto(collate: (string, string) -> bool, timeOf: string -> int): (Bond, Bond) -> bool {
    (a: Bond, b: Bond) =>
      if collate(a.s, b.s) && collate(b.s, a.s) then timeOf(a.vto) <= timeOf(b.vto) else collate(a.s, b.s)
  }

  lemma BySegmentThenVtoTotal(collate: (string, string) -> bool, timeOf: string -> int)
    requires TotalPreorder(collate)
    ensures TotalPreorder(BySegmentThenVto(collate, timeOf))
  {
    var le := BySegmentThenVto(collate, timeOf);
    forall a: Bond, b: Bond ensures le(a, b) || le(b, a) {
      assert collate(a.s, b.s) || collate(b.s, a.s);
    }
    forall a: Bond, b: Bond, c: Bond | le(a, b) && le(b, c) ensures le(a, c) {
      assert collate(a.s, b.s) && collate(b.s, c.s);
      assert collate(a.s, c.s);
      if collate(c.s, a.s) {
        assert collate(b.s, a.s) && collate(c.s, b.s);
      }
    }
  }

  /** The soberanos order: a permutation in which each segment collates no
      later than the next, and bonds of segments that collate equal are in
      maturity order. */
  function SortBySegmentThenVto(bonds: seq<Bond>, collate: (string, string) -> bool, timeOf: string -> int): (r: seq<Bond>)
    requires TotalPreorder(collate)
    ensures multiset(r) == multiset(bonds)
    ensures forall i, j :: 0 <= i < j < |r| ==>
              collate(r[i].s, r[j].s) && (collate(r[j].s, r[i].s) ==> timeOf(r[i].vto) <= timeOf(r[j].vto))
  {
    BySegmentThenVtoTotal(collate, timeOf);
    var r := SortWith(bonds, BySegmentThenVto(collate, timeOf));
    assert forall i, j :: 0 <= i < j < |r| ==> BySegmentThenVto(collate, timeOf)(r[i], r[j]);
    r
  }

  // ---------------------------------------------------------------------
  // Segment groups and the realtime filter

  /** `groups[name] || []`: the segments of the named group, none for an
      unknown name. */
  function GroupSegments(groups: seq<(string, seq<string>)>, name: string): (r: seq<string>)
    ensures (forall i :: 0 <= i < |groups| ==> groups[i].0 != name) ==> r == []
    ensures forall i :: (0 <= i < |groups| && groups[i].0 == name && forall j :: 0 <= j < i ==> groups[j].0 != name) ==> r == groups[i].1
  {
    if groups == [] then []
    else if groups[0].0 == name then groups[0].1
    else
      assert forall i :: 1 <= i < |groups| ==> groups[i] == groups[1..][i - 1];
      GroupSegments(groups[1..], name)
  }

  /** Each segment wrapped in the quote character. */
  function QuoteEach(segments: seq<string>, q: char): (r: seq<string>)
    ensures |r| == |segments|
  {
    seq(|segments|, i requires 0 <= i < |segments| => [q] + segments[i] + [q])
  }

  /** The realtime subscription filter `s=in.(<quoted segments joined by ,>)`. */
  function InFilter(segments: seq<string>, q: char): string {
    "s=in.(" + Join(QuoteEach(segments, q), ',') + ")"
  }

  /** The filter lists every segment, quoted, in order: cutting off
      `s=in.(` and `)` and splitting on commas gives back the quoted list. */
  lemma InFilterLists(segments: seq<string>, q: char)
    requires |segments| > 0 && q != ','
    requires forall i :: 0 <= i < |segments| ==> ',' !in segments[i]
    ensures var f := InFilter(segments, q);
            StartsWith(f, "s=in.(") && f[|f| - 1] == ')'
            && Split(f[6..|f| - 1], ',') == QuoteEach(segments, q)
  {
    var quoted := QuoteEach(segments, q);
    var inner := Join(quoted, ',');
    var f := InFilter(segments, q);
    assert f[6..|f| - 1] == inner;
    forall i | 0 <= i < |quoted| ensures ',' !in quoted[i] {
      assert quoted[i] == [q] + segments[i] + [q];
    }
    SplitJoin(quoted, ',');
  }
}
