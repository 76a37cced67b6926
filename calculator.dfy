/** The bond yield calculator: what it does with the typed price, rate and
    exchange rate before and after the yield backend answers, the choice of
    leg for dual bonds, the ticker search and the number formatter. */
module Calculator {
  import opened Common
  import ColumnFilter

  datatype Currency = ARS | USD

  // ---------------------------------------------------------------------
  // Input sanitisers

  predicate PriceChar(c: char) { IsDigit(c) || c == ',' }
  predicate RateChar(c: char) { IsDigit(c) || c == ',' || c == '.' }

  function DotToComma(c: char): char { if c == '.' then ',' else c }

  /** The price and TIR inputs: `.replace(/\./g, ',').replace(/[^0-9,]/g, '')`. */
  function SanitizePrice(s: string): (r: string)
    ensures forall i :: 0 <= i < |r| ==> PriceChar(r[i])
  {
    var commas := seq(|s|, i requires 0 <= i < |s| => DotToComma(s[i]));
    var r := Filter(commas, PriceChar);
    FilterMembers(commas, PriceChar);
    assert forall i :: 0 <= i < |r| ==> r[i] in r;
    r
  }

  /** The exchange-rate input: `.replace(/[^0-9,.]/g, '')`. */
  function SanitizeRate(s: string): (r: string)
    ensures forall i :: 0 <= i < |r| ==> RateChar(r[i])
  {
    var r := Filter(s, RateChar);
    FilterMembers(s, RateChar);
    assert forall i :: 0 <= i < |r| ==> r[i] in r;
    r
  }

  /** Sanitising a sanitised price changes nothing. */
  lemma SanitizePriceIdempotent(s: string)
    ensures SanitizePrice(SanitizePrice(s)) == SanitizePrice(s)
  {
    var r := SanitizePrice(s);
    var commas := seq(|r|, i requires 0 <= i < |r| => DotToComma(r[i]));
    assert commas == r;
    FilterKeepsAll(r, PriceChar);
  }

  lemma SanitizeRateIdempotent(s: string)
    ensures SanitizeRate(SanitizeRate(s)) == SanitizeRate(s)
  {
    FilterKeepsAll(SanitizeRate(s), RateChar);
  }

  // ---------------------------------------------------------------------
  // Reading the inputs

  /** `s.replace(',', '.')`: the first comma only. */
  function ReplaceFirstComma(s: string): (r: string)
    ensures |r| == |s|
  {
    if s == [] then []
    else if s[0] == ',' then "." + s[1..]
    else [s[0]] + ReplaceFirstComma(s[1..])
  }

  /** `parseFloat(precio.replace(/\./g, '').replace(',', '.'))`. */
  function PriceValue(precio: string): Option<real> {
    ColumnFilter.ParseFloat(ReplaceFirstComma(Filter(precio, (c: char) => c != '.')))
  }

  /** `parseFloat(tirInput.replace(',', '.'))`. */
  function TirValue(tirInput: string): Option<real> {
    ColumnFilter.ParseFloat(ReplaceFirstComma(tirInput))
  }

  /** A price typed with a decimal comma, such as `99,61`, is read as that
      decimal number. */
  lemma PriceDecimalComma(a: string, b: string)
    requires ColumnFilter.AllDigits(a) && ColumnFilter.AllDigits(b) && a != []
    ensures PriceValue(a + "," + b) == Some(ColumnFilter.Decimal(a, b))
  {
    var s := a + "," + b;
    assert forall i :: 0 <= i < |s| ==> s[i] != '.';
    FilterKeepsAll(s, (c: char) => c != '.');
    NoCommaPrefix(a, b);
    ParseFloatDecimal(a, b);
  }

  lemma ParseFloatDecimal(a: string, b: string)
    requires ColumnFilter.AllDigits(a) && ColumnFilter.AllDigits(b) && a != []
    ensures ColumnFilter.ParseFloat(a + "." + b) == Some(ColumnFilter.Decimal(a, b))
  {
    var t := a + "." + b;
    assert TrimStart(t) == t by {
      assert t[0] == a[0];
      TrimStartDigit(t);
    }
    var n := ColumnFilter.DigitRun(t);
    assert n == |a| by {
      assert t == a + ("." + b);
      ColumnFilter.DigitRunPrefix(a, "." + b);
    }
    assert t[..n] == a && t[n..] == "." + b;
    assert ColumnFilter.FracDigits("." + b) == b by {
      ColumnFilter.DigitRunAll(b);
      assert ("." + b)[1..] == b && b[..|b|] == b;
    }
  }

  lemma TrimStartDigit(t: string)
    requires t != [] && IsDigit(t[0])
    ensures TrimStart(t) == t
  {
  }

  lemma {:induction false} NoCommaPrefix(a: string, b: string)
    requires ColumnFilter.AllDigits(a)
    ensures ReplaceFirstComma(a + "," + b) == a + "." + b
    decreases |a|
  {
    if a == [] {
      assert a + "," + b == "," + b;
      assert ("," + b)[1..] == b;
    } else {
      NoCommaPrefix(a[1..], b);
      assert (a + "," + b)[1..] == a[1..] + "," + b;
      assert [a[0]] + (a[1..] + "." + b) == a + "." + b;
    }
  }

  // ---------------------------------------------------------------------
  // Exchange rate and conversion

  /** `necesitaTC`: the input currency is not the bond's currency. */
  predicate NeedsRate(moneda: Currency, monedaBono: Currency) {
    (moneda == ARS && monedaBono == USD) || (moneda == USD && monedaBono == ARS)
  }

  lemma NeedsRateIffDiffer(moneda: Currency, monedaBono: Currency)
    ensures NeedsRate(moneda, monedaBono) <==> moneda != monedaBono
  {
  }

  /** `Number(tipoCambioInput) || (tipoDeCambio?.valor_mep ?? 1)`. */
  function ExchangeRate(tcInput: string, mep: Option<real>): (tc: real)
    ensures ColumnFilter.JsDecimal(tcInput).Some? && ColumnFilter.JsDecimal(tcInput).value != 0.0 ==> tc == ColumnFilter.JsDecimal(tcInput).value
    ensures (ColumnFilter.JsDecimal(tcInput).None? || ColumnFilter.JsDecimal(tcInput).value == 0.0) && mep.Some? ==> tc == mep.value
    ensures (ColumnFilter.JsDecimal(tcInput).None? || ColumnFilter.JsDecimal(tcInput).value == 0.0) && mep.None? ==> tc == 1.0
  {
    var typed := ColumnFilter.JsDecimal(tcInput);
    if typed.Some? && typed.value != 0.0 then typed.value
    else if mep.Some? then mep.value
    else 1.0
  }

  /** A rate typed as a non-zero whole number is the rate used. */
  lemma TypedRateUsed(d: string, mep: Option<real>)
    requires ColumnFilter.AllDigits(d) && d != [] && ColumnFilter.DigitsValue(d) != 0
    ensures ExchangeRate(d, mep) == ColumnFilter.DigitsValue(d) as real
  {
    JsDecimalDigits(d);
  }

  lemma JsDecimalDigits(d: string)
    requires ColumnFilter.AllDigits(d) && d != []
    ensures ColumnFilter.JsDecimal(d) == Some(ColumnFilter.DigitsValue(d) as real)
  {
    TrimOfTrimmed(d);
    ColumnFilter.DigitRunAll(d);
    assert d[|d|..] == [];
    ColumnFilter.DecimalWhole(d);
  }

  /** A rate typed with a decimal comma is NaN to `Number`, so the MEP rate
      (or 1 without one) is used instead. */
  lemma CommaRateFallsBack(a: string, b: string, mep: Option<real>)
    requires ColumnFilter.AllDigits(a) && ColumnFilter.AllDigits(b)
    ensures ExchangeRate(a + "," + b, mep) == (if mep.Some? then mep.value else 1.0)
  {
    CommaIsNaN(a, b);
  }

  lemma TrimAroundComma(a: string, b: string)
    requires ColumnFilter.AllDigits(a) && ColumnFilter.AllDigits(b)
    ensures Trim(a + "," + b) == a + "," + b
  {
    var t := a + "," + b;
    assert t[0] == (if a == [] then ',' else a[0]);
    assert t[|t| - 1] == (if b == [] then ',' else b[|b| - 1]);
    TrimOfTrimmed(t);
  }

  lemma CommaIsNaN(a: string, b: string)
    requires ColumnFilter.AllDigits(a) && ColumnFilter.AllDigits(b)
    ensures ColumnFilter.JsDecimal(a + "," + b).None?
  {
    var t := a + "," + b;
    TrimAroundComma(a, b);
    assert ColumnFilter.DigitRun(t) == |a| by {
      assert t == a + ("," + b);
      ColumnFilter.DigitRunPrefix(a, "," + b);
    }
    assert t[|a|..] == "," + b;
  }

  /** The price the backend gets, in the bond's currency. */
  function ToBondCurrency(price: real, moneda: Currency, monedaBono: Currency, shown: bool, tc: real): real {
    if shown && tc != 0.0 && moneda == ARS && monedaBono == USD then price / tc
    else if shown && tc != 0.0 && moneda == USD && monedaBono == ARS then price * tc
    else price
  }

  /** The price the backend returns, back in the input currency. */
  function FromBondCurrency(price: real, moneda: Currency, monedaBono: Currency, shown: bool, tc: real): real {
    if shown && tc != 0.0 && moneda == ARS && monedaBono == USD then price * tc
    else if shown && tc != 0.0 && moneda == USD && monedaBono == ARS then price / tc
    else price
  }

  /** `calcular`: the typed price is read, then converted when the rate
      field is shown and the rate is non-zero. */
  method PrecioFinal(precio: string, moneda: Currency, monedaBono: Currency, shown: bool, tc: real)
    returns (precioFinal: Option<real>)
    ensures precioFinal.None? <==> PriceValue(precio).None?
    ensures precioFinal.Some? ==> precioFinal.value == ToBondCurrency(PriceValue(precio).value, moneda, monedaBono, shown, tc)
  {
    precioFinal := PriceValue(precio);
    if precioFinal.Some? && shown && tc != 0.0 {
      if moneda == ARS && monedaBono == USD {
        precioFinal := Some(precioFinal.value / tc);
      } else if moneda == USD && monedaBono == ARS {
        precioFinal := Some(precioFinal.value * tc);
      }
    }
  }

  /** `calcularPrecioDesdeFlujos`: the price received is converted the
      other way. */
  method PrecioRecibido(received: real, moneda: Currency, monedaBono: Currency, shown: bool, tc: real)
    returns (precioRecibido: real)
    ensures precioRecibido == FromBondCurrency(received, moneda, monedaBono, shown, tc)
  {
    precioRecibido := received;
    if shown && tc != 0.0 {
      if moneda == ARS && monedaBono == USD {
        precioRecibido := precioRecibido * tc;
      } else if moneda == USD && monedaBono == ARS {
        precioRecibido := precioRecibido / tc;
      }
    }
  }

  /** Converting to the bond's currency and back gives the price typed. */
  lemma ConversionRoundTrip(price: real, moneda: Currency, monedaBono: Currency, shown: bool, tc: real)
    ensures FromBondCurrency(ToBondCurrency(price, moneda, monedaBono, shown, tc), moneda, monedaBono, shown, tc) == price
    ensures ToBondCurrency(FromBondCurrency(price, moneda, monedaBono, shown, tc), moneda, monedaBono, shown, tc) == price
  {
  }

  /** With the rate field shown exactly when the currencies differ, the
      price changes only across currencies: divided by the rate from pesos
      to a dollar bond, multiplied from dollars to a peso bond. */
  lemma ConversionDirection(price: real, moneda: Currency, monedaBono: Currency, tc: real)
    requires tc != 0.0
    ensures var p := ToBondCurrency(price, moneda, monedaBono, NeedsRate(moneda, monedaBono), tc);
            (moneda == monedaBono ==> p == price)
            && (moneda == ARS && monedaBono == USD ==> p * tc == price)
            && (moneda == USD && monedaBono == ARS ==> p == price * tc)
  {
  }

  // ---------------------------------------------------------------------
  // The what-if request

  datatype Flujo = Flujo(fecha: string, vnoAjustado: real, pagoInteres: real, pagoAmortizacion: real, flujoTotal: real)

  /** The part of a yield result the inverse calculation reads. */
  datatype Leg = Leg(tir: real, flujos: Option<seq<Flujo>>, baseanual2: Option<real>)

  datatype Resultados = Simple(leg: Leg) | Dual(tamar: Option<Leg>, fija: Leg)

  /** For dual bonds the TAMAR leg is used only when its TIR is strictly
      higher; otherwise, ties included, the fixed leg. */
  function ChooseLeg(r: Resultados): (leg: Leg)
    requires r.Dual? ==> r.tamar.Some?
    ensures r.Simple? ==> leg == r.leg
    ensures r.Dual? && r.tamar.value.tir > r.fija.tir ==> leg == r.tamar.value
    ensures r.Dual? && r.tamar.value.tir <= r.fija.tir ==> leg == r.fija
  {
    if r.Simple? then r.leg
    else if r.tamar.value.tir > r.fija.tir then r.tamar.value
    else r.fija
  }

  datatype WhatIf =
    | WhatIfError(message: string)
    | Request(flujos: Option<seq<Flujo>>, tir: real, baseanual: real)

  const NoFlowsMessage := "Primero debes calcular la TIR para obtener los flujos."
  const BadTirMessage := "Por favor, ingresa una TIR válida."
  const NoBaseMessage := "Error: No se encontró la base de cálculo (baseanual2) en los resultados."

  /** Results the inverse calculation can start from: a dual bond with its
      TAMAR leg, or a plain bond with its detailed flows. */
  predicate HasFlows(r: Resultados) {
    (r.Dual? ==> r.tamar.Some?) && (r.Simple? ==> r.leg.flujos.Some?)
  }

  /** What the inverse calculation sends, or the error it shows: results
      with flows are needed first, then a numeric TIR (sent divided by
      100), then a non-zero base from the chosen leg. */
  function WhatIfRequest(r: Option<Resultados>, tirInput: string): (w: WhatIf)
    ensures w.Request? ==> r.Some? && HasFlows(r.value)
    ensures w.Request? ==> TirValue(tirInput).Some? && w.tir == TirValue(tirInput).value / 100.0
    ensures w.Request? ==> w.baseanual != 0.0
    ensures r.None? || !HasFlows(r.value) ==> w == WhatIfError(NoFlowsMessage)
    ensures r.Some? && HasFlows(r.value) && TirValue(tirInput).None? ==> w == WhatIfError(BadTirMessage)
  {
    if r.None? || !HasFlows(r.value) then
      WhatIfError(NoFlowsMessage)
    else
      var tir := TirValue(tirInput);
      if tir.None? then WhatIfError(BadTirMessage)
      else
        var leg := ChooseLeg(r.value);
        if leg.baseanual2.None? || leg.baseanual2.value == 0.0 then WhatIfError(NoBaseMessage)
        else Request(leg.flujos, tir.value / 100.0, leg.baseanual2.value)
  }

  /** The chosen leg's flows are the ones sent. */
  lemma WhatIfUsesChosenLeg(r: Resultados, tirInput: string)
    requires HasFlows(r)
    requires TirValue(tirInput).Some?
    requires ChooseLeg(r).baseanual2.Some? && ChooseLeg(r).baseanual2.value != 0.0
    ensures WhatIfRequest(Some(r), tirInput) ==
              Request(ChooseLeg(r).flujos, TirValue(tirInput).value / 100.0, ChooseLeg(r).baseanual2.value)
  {
  }

  // ---------------------------------------------------------------------
  // Ticker search and number format

  datatype TickerItem = TickerItem(ticker: string, desctasa: string)

  predicate Matches(t: TickerItem, filtro: string) {
    Contains(Lower(t.ticker), Lower(filtro)) || Contains(Lower(t.desctasa), Lower(filtro))
  }

  /** `tickersFiltrados`. */
  function SearchTickers(tickers: seq<TickerItem>, filtro: string): seq<TickerItem> {
    Filter(tickers, (t: TickerItem) => Matches(t, filtro))
  }

  /** The search keeps exactly the tickers whose code or rate description
      contains the text in any letter case; an empty search keeps all, and
      a literal match is always kept. */
  lemma SearchTickersExactly(tickers: seq<TickerItem>, filtro: string)
    ensures forall t :: t in SearchTickers(tickers, filtro) <==> t in tickers && Matches(t, filtro)
    ensures filtro == "" ==> SearchTickers(tickers, filtro) == tickers
    ensures forall t :: t in tickers && (Contains(t.ticker, filtro) || Contains(t.desctasa, filtro)) ==>
              t in SearchTickers(tickers, filtro)
  {
    FilterMembers(tickers, (t: TickerItem) => Matches(t, filtro));
    if filtro == "" {
      forall t: TickerItem ensures Matches(t, filtro) {
        assert OccursAt(Lower(t.ticker), Lower(filtro), 0);
      }
      FilterKeepsAll(tickers, (t: TickerItem) => Matches(t, filtro));
    }
    forall t | t in tickers && (Contains(t.ticker, filtro) || Contains(t.desctasa, filtro))
      ensures Matches(t, filtro)
    {
      if Contains(t.ticker, filtro) {
        ContainsLower(t.ticker, filtro);
      } else {
        ContainsLower(t.desctasa, filtro);
      }
    }
  }

  /** `formatNumberAR`: a dash for a missing or NaN value (None), and for
      zero when asked to; otherwise the localized text. */
  function FormatNumberAR(value: Option<real>, dashForZero: bool, localized: real -> string): (s: string)
    ensures value.None? ==> s == "-"
    ensures dashForZero && value == Some(0.0) ==> s == "-"
    ensures value.Some? && !(dashForZero && value.value == 0.0) ==> s == localized(value.value)
  {
    if dashForZero && value == Some(0.0) then "-"
    else if value.None? then "-"
    else localized(value.value)
  }
}
