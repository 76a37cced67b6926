/** The downloadable HTML report: one section per group of segments, each
    a table of the latest bonds of those segments sorted by maturity, with
    a chart container for every group but the corporate one. The markup is
    modelled as its structure (sections, header cells, row cells with their
    colours) rather than as text. */
module HtmlReport {
  import opened Common
  import Bonds

  /** Locale services the report uses, taken as parameters: number
      formatting with a number of decimals, maturity dates as text, and
      `new Date(vto).getTime()`. */
  datatype Env = Env(localized: (real, nat) -> string, showDate: string -> string, timeOf: string -> int)

  /** `formatValue(value, unit, decimals)`: a dash for null, undefined or a
      non-finite number (None); percentages are scaled by 100. */
  function FormatValue(value: Option<real>, unit: string, decimals: nat, localized: (real, nat) -> string): (s: string)
    ensures value.None? ==> s == "-"
    ensures value.Some? && unit == "%" ==> s == localized(value.value * 100.0, decimals) + "%"
    ensures value.Some? && unit != "%" ==> s == localized(value.value, decimals) + unit
  {
    if value.None? then "-"
    else localized(value.value * (if unit == "%" then 100.0 else 1.0), decimals) + unit
  }

  /** `formatDate`: a dash for an empty date. */
  function FormatDate(d: string, showDate: string -> string): string {
    if d == "" then "-" else showDate(d)
  }

  const PcBackground := "#e0f7fa"
  const Green := "#22c55e"
  const Red := "#ef4444"
  const CorporateTitle := "Obligaciones Negociables"
  const SovereignTitle := "Bonares y Globales"

  /** A table cell: its background, its text colour and its text. */
  datatype Cell = Cell(background: Option<string>, color: Option<string>, text: string)

  datatype Section = Section(title: string, header: seq<string>, rows: seq<seq<Cell>>, chartId: Option<string>)

  predicate Skipped(title: string) {
    title == "ONs Dollar Linked" || title == "Subsoberanos"
  }

  /** Sovereign and corporate groups show duration and parity. */
  predicate ShowsDuration(title: string) {
    title == SovereignTitle || title == CorporateTitle
  }

  function Header(title: string): (h: seq<string>)
    ensures |h| == 7 && h[..5] == ["Ticker", "Vto", "Precio", "Var", "TIR"]
    ensures ShowsDuration(title) <==> h[5..] == ["MD", "Paridad"]
    ensures !ShowsDuration(title) <==> h[5..] == ["TNA", "TEM"]
  {
    ["Ticker", "Vto", "Precio", "Var", "TIR"] + (if ShowsDuration(title) then ["MD", "Paridad"] else ["TNA", "TEM"])
  }

  function Plain(text: string): Cell { Cell(None, None, text) }

  /** The cells of one bond's row. */
  function RowCells(b: Bonds.Bond, title: string, env: Env): (cells: seq<Cell>)
    ensures |cells| == 7
    ensures cells[0].text == b.t
    ensures cells[2].background == Some(if b.pc then PcBackground else "transparent")
    ensures cells[3].color == Some(if b.v >= 0.0 then Green else Red)
    ensures ShowsDuration(title) ==>
              (cells[5].text == FormatValue(b.md, "", 2, env.localized) && cells[6].text == FormatValue(b.pd, "", 2, env.localized))
    ensures !ShowsDuration(title) ==>
              (cells[5].text == FormatValue(b.tna, "%", 2, env.localized) && cells[6].text == FormatValue(b.tem, "%", 2, env.localized))
  {
    [ Plain(b.t),
      Plain(FormatDate(b.vto, env.showDate)),
      Cell(Some(if b.pc then PcBackground else "transparent"), None, FormatValue(b.p, "", 2, env.localized)),
      Cell(None, Some(if b.v >= 0.0 then Green else Red), FormatValue(Some(b.v), "%", 2, env.localized)),
      Plain(FormatValue(Some(b.tir), "%", 2, env.localized)) ]
    + (if ShowsDuration(title)
       then [Plain(FormatValue(b.md, "", 2, env.localized)), Plain(FormatValue(b.pd, "", 2, env.localized))]
       else [Plain(FormatValue(b.tna, "%", 2, env.localized)), Plain(FormatValue(b.tem, "%", 2, env.localized))])
  }

  /** `'chart-' + titulo.replace(/[^a-zA-Z0-9]/g, '')`, shared by the
      section markup and the chart script. */
  function ChartId(title: string): (id: string)
    ensures "chart-" <= id
    ensures forall i :: 6 <= i < |id| ==> IsAlnum(id[i])
  {
    var kept := Filter(title, IsAlnum);
    FilterMembers(title, IsAlnum);
    assert forall i :: 0 <= i < |kept| ==> kept[i] in kept;
    "chart-" + kept
  }

  /** The bonds of a group, sorted by maturity. */
  function GroupBonds(lote: seq<Bonds.Bond>, segmentos: seq<string>, env: Env): seq<Bonds.Bond> {
    SortByKey(Filter(lote, (b: Bonds.Bond) => b.s in segmentos), (b: Bonds.Bond) => env.timeOf(b.vto))
  }

  /** The section a group contributes, if any. */
  function SectionOf(title: string, segmentos: seq<string>, lote: seq<Bonds.Bond>, env: Env): Option<Section> {
    var datos := GroupBonds(lote, segmentos, env);
    if Skipped(title) || datos == [] then None
    else Some(Section(title, Header(title),
                      seq(|datos|, i requires 0 <= i < |datos| => RowCells(datos[i], title, env)),
                      if title != CorporateTitle then Some(ChartId(title)) else None))
  }

  function GroupSection(g: (string, seq<string>), lote: seq<Bonds.Bond>, env: Env): Option<Section> {
    SectionOf(g.0, g.1, lote, env)
  }

  /** The sections of the report, one per kept group, in group order. */
  function Sections(groups: seq<(string, seq<string>)>, lote: seq<Bonds.Bond>, env: Env): seq<Section>
    decreases |groups|
  {
    if groups == [] then []
    else
      var s := GroupSection(groups[|groups| - 1], lote, env);
      Sections(groups[..|groups| - 1], lote, env) + (if s.Some? then [s.value] else [])
  }

  /** The body grows by one section per kept group. */
  method BodyContent(groups: seq<(string, seq<string>)>, lote: seq<Bonds.Bond>, env: Env)
    returns (body: seq<Section>)
    ensures body == Sections(groups, lote, env)
  {
    body := [];
    var i := 0;
    while i < |groups|
      invariant 0 <= i <= |groups|
      invariant body == Sections(groups[..i], lote, env)
    {
      assert groups[..i + 1][..i] == groups[..i];
      var section := GroupSection(groups[i], lote, env);
      if section.Some? {
        body := body + [section.value];
      }
      i := i + 1;
    }
    assert groups[..|groups|] == groups;
  }

  // ---------------------------------------------------------------------
  // Properties

  /** A section holds one row per bond of its group, those bonds sorted by
      maturity and exactly the batch's bonds of the group's segments. */
  lemma SectionRows(title: string, segmentos: seq<string>, lote: seq<Bonds.Bond>, env: Env)
    requires SectionOf(title, segmentos, lote, env).Some?
    ensures var s := SectionOf(title, segmentos, lote, env).value;
            var datos := GroupBonds(lote, segmentos, env);
            && !Skipped(title) && datos != []
            && s.title == title && s.header == Header(title)
            && |s.rows| == |datos|
            && (forall i :: 0 <= i < |datos| ==> s.rows[i] == RowCells(datos[i], title, env))
            && (forall i, j :: 0 <= i < j < |datos| ==> env.timeOf(datos[i].vto) <= env.timeOf(datos[j].vto))
  {
  }

  lemma GroupBondsMembers(lote: seq<Bonds.Bond>, segmentos: seq<string>, env: Env)
    ensures forall b :: b in GroupBonds(lote, segmentos, env) <==> b in lote && b.s in segmentos
  {
    var datos := GroupBonds(lote, segmentos, env);
    var kept := Filter(lote, (b: Bonds.Bond) => b.s in segmentos);
    FilterMembers(lote, (b: Bonds.Bond) => b.s in segmentos);
    assert forall b :: b in datos <==> b in multiset(datos);
    assert forall b :: b in kept <==> b in multiset(kept);
  }

  /** Every group but the corporate one gets a chart container, whose id
      is the one the chart script draws into. */
  lemma SectionChart(title: string, segmentos: seq<string>, lote: seq<Bonds.Bond>, env: Env)
    requires SectionOf(title, segmentos, lote, env).Some?
    ensures var s := SectionOf(title, segmentos, lote, env).value;
            && (s.chartId.Some? <==> title != CorporateTitle)
            && (s.chartId.Some? ==> s.chartId.value == ChartId(title))
  {
  }

  /** Every section comes from a group. */
  lemma {:induction false} SectionsFromGroups(groups: seq<(string, seq<string>)>, lote: seq<Bonds.Bond>, env: Env)
    ensures |Sections(groups, lote, env)| <= |groups|
    ensures forall s :: s in Sections(groups, lote, env) ==>
              exists g :: g in groups && GroupSection(g, lote, env) == Some(s)
    decreases |groups|
  {
    if groups != [] {
      var init := groups[..|groups| - 1];
      SectionsFromGroups(init, lote, env);
      assert forall g :: g in init ==> g in groups;
    }
  }

  /** Every group that yields a section has it in the report. */
  lemma {:induction false} GroupsToSections(groups: seq<(string, seq<string>)>, lote: seq<Bonds.Bond>, env: Env)
    ensures forall g :: g in groups && GroupSection(g, lote, env).Some? ==>
              GroupSection(g, lote, env).value in Sections(groups, lote, env)
    decreases |groups|
  {
    if groups != [] {
      var init := groups[..|groups| - 1];
      GroupsToSections(init, lote, env);
      assert groups == init + [groups[|groups| - 1]];
    }
  }

  /** Skipped titles and groups with no bond of the batch produce no
      section. */
  lemma NoSectionFor(title: string, segmentos: seq<string>, lote: seq<Bonds.Bond>, env: Env)
    requires Skipped(title) || forall b :: b in lote ==> b.s !in segmentos
    ensures SectionOf(title, segmentos, lote, env).None?
  {
    var datos := GroupBonds(lote, segmentos, env);
    if !Skipped(title) && datos != [] {
      GroupBondsMembers(lote, segmentos, env);
    }
  }

  /** The chart id keeps exactly the ASCII letters and digits of the title,
      so a title made of them alone is used as is. */
  lemma ChartIdOfAlnum(title: string)
    requires forall i :: 0 <= i < |title| ==> IsAlnum(title[i])
    ensures ChartId(title) == "chart-" + title
  {
    FilterKeepsAll(title, IsAlnum);
  }

  lemma ChartIdDropsOthers(title: string, c: char)
    requires !IsAlnum(c)
    ensures c !in ChartId(title)[6..]
  {
    FilterMembers(title, IsAlnum);
    assert ChartId(title)[6..] == Filter(title, IsAlnum);
  }
}
