/** The eight-table curves dashboard: segment groups, the selected view
    with its slider, the header links and the "updated today" badge. */
module CurvasBonos2Page {
  import opened Common
  import opened Bonds
  import Slug

  const BonaresGroup := "Bonares y Globales"

  const Groups: seq<(string, seq<string>)> := [
    ("LECAPs y Similares", ["LECAP", "BONCAP", "BONTE", "DUAL TAMAR"]),
    ("Ajustados por CER", ["CER", "ON CER"]),
    ("Dollar Linked", ["DL", "ON HD"]),
    ("TAMAR", ["TAMAR", "ON TAMAR"]),
    (BonaresGroup, ["BONAR", "GLOBAL", "BOPREAL"]),
    ("Obligaciones Negociables", ["ON"]),
    ("ONs Dollar Linked", ["ON_DL"]),
    ("Subsoberanos", ["SUBSOB"])]

  /** Titles whose header links to another site. */
  const ExternalLinks: map<string, string> := map[
    "LECAPs y Similares" := "https://researchcap.vercel.app/RentaFijaArs",
    "Ajustados por CER" := "https://researchcap.vercel.app/cer",
    "Dollar Linked" := "https://researchcap.vercel.app/dl",
    "TAMAR" := "https://researchcap.vercel.app/tamar",
    "ONs Dollar Linked" := "https://researchcap.vercel.app/ondl"]

  /** The rows of the selected group; an unknown group shows nothing. */
  function SelectedRows(batch: seq<Bond>, selected: string): (r: seq<Bond>)
    ensures forall b :: b in r <==> b in batch && b.s in GroupSegments(Groups, selected)
    ensures (forall i :: 0 <= i < |Groups| ==> Groups[i].0 != selected) ==> r == []
  {
    BySegmentExactly(batch, GroupSegments(Groups, selected));
    BySegmentNone(batch);
    BySegment(batch, GroupSegments(Groups, selected))
  }

  /** `maxXValue`: the upper end of the slider, in duration for the Bonares
      group and in days for every other group. */
  function MaxXValue(rows: seq<Bond>, bonares: bool): (m: int)
    ensures rows == [] ==> m == (if bonares then 10 else 1000)
    ensures bonares ==> forall i :: 0 <= i < |rows| ==> MdOrZero(rows[i]) <= m as real
    ensures bonares && rows != [] ==> exists i :: 0 <= i < |rows| && (m - 1) as real < MdOrZero(rows[i])
    ensures !bonares ==> forall i :: 0 <= i < |rows| ==> rows[i].dv <= m
    ensures !bonares && rows != [] ==> exists i :: 0 <= i < |rows| && rows[i].dv == m
  {
    if rows == [] then (if bonares then 10 else 1000)
    else if bonares then MaxDuration(rows)
    else MaxDays(rows)
  }

  /** The chart keeps a row when its x value (duration for Bonares, days
      otherwise) is present and within the inclusive slider range. The
      range is a pair of numbers: the Bonares slider moves in steps of 0.1
      years, the days slider in steps of one day. */
  predicate OnChart(b: Bond, bonares: bool, lo: real, hi: real) {
    if bonares then DurationInRange(b, lo, hi) else lo <= b.dv as real <= hi
  }

  function ChartPoints(rows: seq<Bond>, bonares: bool, lo: real, hi: real): (r: seq<Bond>)
    ensures forall b :: b in r <==> b in rows && OnChart(b, bonares, lo, hi)
    ensures bonares ==> forall b :: b in r ==> b.md.Some?
  {
    FilterMembers(rows, (b: Bond) => OnChart(b, bonares, lo, hi));
    Filter(rows, (b: Bond) => OnChart(b, bonares, lo, hi))
  }

  /** On whole-day bounds the days view is the shared day-range filter. */
  lemma DaysViewIsDayRange(b: Bond, lo: int, hi: int)
    ensures OnChart(b, false, lo as real, hi as real) <==> DaysInRange(b, lo, hi)
  {
  }

  /** The range the page resets to, `[0, maxXValue]`, puts every row on the
      chart that has a non-negative x value. */
  lemma InitialRangeShowsAll(rows: seq<Bond>, bonares: bool)
    requires bonares ==> forall i :: 0 <= i < |rows| ==> rows[i].md.Some? && rows[i].md.value >= 0.0
    requires !bonares ==> forall i :: 0 <= i < |rows| ==> rows[i].dv >= 0
    ensures ChartPoints(rows, bonares, 0.0, MaxXValue(rows, bonares) as real) == rows
  {
    var m := MaxXValue(rows, bonares);
    assert forall i :: 0 <= i < |rows| ==> OnChart(rows[i], bonares, 0.0, m as real) by {
      forall i | 0 <= i < |rows| ensures OnChart(rows[i], bonares, 0.0, m as real) {
        if bonares {
          assert MdOrZero(rows[i]) <= m as real;
        } else {
          assert rows[i].dv <= m;
        }
      }
    }
    FilterKeepsAll(rows, (b: Bond) => OnChart(b, bonares, 0.0, m as real));
  }

  /** One of the eight tables: the group's bonds, sorted by maturity. */
  function Table(batch: seq<Bond>, group: string, timeOf: string -> int): (r: seq<Bond>)
    ensures forall b :: b in r <==> b in batch && b.s in GroupSegments(Groups, group)
    ensures multiset(r) == multiset(BySegment(batch, GroupSegments(Groups, group)))
    ensures forall i, j :: 0 <= i < j < |r| ==> timeOf(r[i].vto) <= timeOf(r[j].vto)
  {
    var rows := BySegment(batch, GroupSegments(Groups, group));
    BySegmentExactly(batch, GroupSegments(Groups, group));
    var r := SortByVto(rows, timeOf);
    assert forall b :: b in r <==> b in multiset(r);
    r
  }

  /** The href of a table title. */
  function HeaderLink(title: string): string {
    if title in ExternalLinks then ExternalLinks[title] else "/" + Slug.Slugify(title)
  }

  /** A title without an external site links to `/` followed by a slug. */
  lemma HeaderLinkIsPath(title: string)
    requires title !in ExternalLinks
    ensures HeaderLink(title)[0] == '/'
    ensures Slug.IsSlug(HeaderLink(title)[1..])
  {
    Slug.SlugifyIsSlug(title);
    assert HeaderLink(title)[1..] == Slug.Slugify(title);
  }

  /** `isToday`: a missing or empty timestamp is never today; otherwise the
      calendar day in Buenos Aires (a parameter) is compared with today's. */
  function IsToday(iso: Option<string>, today: string, dayOf: string -> string): (r: bool)
    ensures r ==> iso.Some? && iso.value != "" && dayOf(iso.value) == today
  {
    iso.Some? && iso.value != "" && dayOf(iso.value) == today
  }
}

/** The two-table monitor: LECAPs and Bonares, kept live by the realtime
    upsert. */
module MonitorPage {
  import opened Common
  import opened Bonds

  const Lecaps := ["LECAP", "BONCAP", "BONTE", "DUAL TAMAR"]
  const Bonares := ["BONAR", "GLOBAL", "BOPREAL"]

  /** `Object.values(groups).flat()`. */
  function RequiredSegments(): (r: seq<string>)
    ensures |r| == |Lecaps| + |Bonares|
    ensures r[..|Lecaps|] == Lecaps && r[|Lecaps|..] == Bonares
  {
    Lecaps + Bonares
  }

  /** The realtime filter, segments in double quotes. */
  function RealtimeFilter(): string {
    InFilter(RequiredSegments(), '"')
  }

  lemma RealtimeFilterLists()
    ensures Split(RealtimeFilter()[6..|RealtimeFilter()| - 1], ',') == QuoteEach(RequiredSegments(), '"')
  {
    InFilterLists(RequiredSegments(), '"');
  }

  /** Both tables hold only bonds of their group, sorted by maturity, and
      every segment they show is one the page subscribes to. */
  lemma TablesExactly(bonds: seq<Bond>, timeOf: string -> int)
    ensures forall b :: b in SortByVto(BySegment(bonds, Lecaps), timeOf) <==> b in bonds && b.s in Lecaps
    ensures forall b :: b in SortByVto(BySegment(bonds, Bonares), timeOf) <==> b in bonds && b.s in Bonares
    ensures forall s :: s in Lecaps || s in Bonares ==> s in RequiredSegments()
  {
    BySegmentExactly(bonds, Lecaps);
    BySegmentExactly(bonds, Bonares);
    var l := SortByVto(BySegment(bonds, Lecaps), timeOf);
    var g := SortByVto(BySegment(bonds, Bonares), timeOf);
    assert forall b :: b in l <==> b in multiset(l);
    assert forall b :: b in g <==> b in multiset(g);
  }
}

/** The sovereign-bond page: BONAR, GLOBAL and BOPREAL with expiry-aware
    realtime updates, spreads, the latest update time, the duration slider
    and the segment-then-maturity table. */
module SoberanosPage {
  import opened Common
  import opened Bonds

  const Segments := ["BONAR", "GLOBAL", "BOPREAL"]

  /** The realtime filter, segments in single quotes. */
  function RealtimeFilter(): string {
    InFilter(Segments, '\'')
  }

  lemma RealtimeFilterLists()
    ensures Split(RealtimeFilter()[6..|RealtimeFilter()| - 1], ',') == QuoteEach(Segments, '\'')
  {
    InFilterLists(Segments, '\'');
  }

  /** The table: spreads filled in, sorted by segment name under the
      collation and then by maturity; a permutation of the bonds with
      spreads. */
  function Table(bonds: seq<Bond>, collate: (string, string) -> bool, timeOf: string -> int): (r: seq<Bond>)
    requires TotalPreorder(collate)
    ensures multiset(r) == multiset(DatosConSpread(bonds))
    ensures |r| == |bonds|
    ensures forall i, j :: 0 <= i < j < |r| ==>
              collate(r[i].s, r[j].s) && (collate(r[j].s, r[i].s) ==> timeOf(r[i].vto) <= timeOf(r[j].vto))
  {
    var r := SortBySegmentThenVto(DatosConSpread(bonds), collate, timeOf);
    assert |r| == |multiset(r)|;
    r
  }

  /** The chart: the bonds with a duration inside the slider range, spreads
      filled in. */
  function ChartPoints(bonds: seq<Bond>, lo: real, hi: real): (r: seq<Bond>)
    ensures forall b :: b in r ==> b.md.Some? && lo <= b.md.value <= hi
    ensures forall i :: 0 <= i < |bonds| && DurationInRange(bonds[i], lo, hi) ==> DatosConSpread(bonds)[i] in r
  {
    ChartByDurationExactly(DatosConSpread(bonds), lo, hi);
    ChartByDuration(DatosConSpread(bonds), lo, hi)
  }
}

/** The older fixed-rate page: its own upsert and latest-update bookkeeping. */
module ArsViejoPage {
  import opened Common
  import opened Bonds

  /** The page's bonds and the update time shown in its header. */
  datatype State = State(bonds: seq<Bond>, lastUpdate: Option<string>)

  /** The initial load: the list is replaced, and the update time becomes
      the latest timestamp of the loaded list, unless that list is empty. */
  function OnLoad(st: State, data: seq<Bond>, timeOf: string -> int): (r: State)
    ensures r.bonds == data
    ensures data == [] ==> r.lastUpdate == st.lastUpdate
    ensures data != [] ==> r.lastUpdate == LatestUaBySort(data, timeOf)
  {
    LatestUaAgree(data, timeOf);
    State(data, if |data| > 0 then ReduceLatestUa(None, data, timeOf) else st.lastUpdate)
  }

  /** A realtime row is upserted, and the update time becomes that row's own
      timestamp (null when it has none), whether or not it is the latest. */
  function OnRealtime(st: State, b: Bond): (r: State)
    ensures r.bonds == UpsertBond(st.bonds, b)
    ensures r.lastUpdate.Some? <==> HasUa(b)
    ensures r.lastUpdate.Some? ==> r.lastUpdate == b.ua
  {
    State(UpsertBond(st.bonds, b), if HasUa(b) then b.ua else None)
  }

  /** After a load, the update time is the latest timestamp the bonds hold. */
  lemma LoadedUpdateIsLatest(st: State, data: seq<Bond>, timeOf: string -> int)
    requires exists i :: 0 <= i < |data| && HasUa(data[i])
    ensures OnLoad(st, data, timeOf).lastUpdate.Some?
    ensures forall i :: 0 <= i < |data| && HasUa(data[i]) ==>
              timeOf(data[i].ua.value) <= timeOf(OnLoad(st, data, timeOf).lastUpdate.value)
  {
    LatestUaIsMax(data, timeOf);
  }
}

/** The CER page: the newest batch, CER bonds only. */
module CerPage {
  import opened Common
  import opened Bonds

  function Rows(history: seq<Snapshot>): (r: seq<Bond>)
    ensures forall b :: b in r <==> b in LatestBatch(history) && b.s == "CER"
  {
    BySegmentExactly(LatestBatch(history), ["CER"]);
    BySegment(LatestBatch(history), ["CER"])
  }
}

/** The LECAP page: the newest batch, LECAP-group bonds only. */
module RentaFijaArsPage {
  import opened Common
  import opened Bonds

  const Segments := ["LECAP", "BONCAP", "BONTE", "DUAL TAMAR"]

  function Rows(history: seq<Snapshot>): (r: seq<Bond>)
    ensures forall b :: b in r <==> b in LatestBatch(history) && b.s in Segments
  {
    BySegmentExactly(LatestBatch(history), Segments);
    BySegment(LatestBatch(history), Segments)
  }
}

/** The six-table curves page with a selectable group. */
module CurvasBonosPage {
  import opened Common
  import opened Bonds

  const Groups: seq<(string, seq<string>)> := [
    ("LECAPs y Similares", ["LECAP", "BONCAP", "BONTE", "DUAL TAMAR"]),
    ("Ajustados por CER", ["CER", "ON CER"]),
    ("Dollar Linked", ["ON DL", "DL", "ON HD"]),
    ("Tasa Fija (TAMAR)", ["TAMAR", "ON TAMAR"]),
    ("Bonares y Globales", ["BONAR", "GLOBAL", "BOPREAL"]),
    ("Obligaciones Negociables", ["ON"])]

  /** The selected group's rows of the newest batch; an unknown group
      shows nothing. */
  function SelectedRows(history: seq<Snapshot>, selected: string): (r: seq<Bond>)
    ensures forall b :: b in r <==> b in LatestBatch(history) && b.s in GroupSegments(Groups, selected)
    ensures (forall i :: 0 <= i < |Groups| ==> Groups[i].0 != selected) ==> r == []
  {
    BySegmentExactly(LatestBatch(history), GroupSegments(Groups, selected));
    BySegmentNone(LatestBatch(history));
    BySegment(LatestBatch(history), GroupSegments(Groups, selected))
  }

  /** Each of the six tables: the group's rows sorted by maturity. */
  function Table(history: seq<Snapshot>, k: nat, timeOf: string -> int): (r: seq<Bond>)
    requires k < |Groups|
    ensures forall b :: b in r <==> b in LatestBatch(history) && b.s in Groups[k].1
    ensures forall i, j :: 0 <= i < j < |r| ==> timeOf(r[i].vto) <= timeOf(r[j].vto)
  {
    var rows := BySegment(LatestBatch(history), Groups[k].1);
    BySegmentExactly(LatestBatch(history), Groups[k].1);
    var r := SortByVto(rows, timeOf);
    assert forall b :: b in r <==> b in multiset(r);
    r
  }
}
