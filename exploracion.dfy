/** The interactive exploration page (pages/04_Exploracion_Interactiva.py):
    the enriched table, the sidebar filters and the weighted metrics of the
    selection. This page reads `rururb == 0` as urban. */
module Exploracion {
  import opened Frames
  import opened Survey
  import Weighted

  /** A row of `df_completo` with the page's derived columns. */
  datatype Row = Row(year: int, raw: Raw, tieneCelular: int, tier: Tier, ambito: Ambito, jefatura: Jefatura)

  /** The derived columns of one tagged row. */
  function Enrich(t: Tagged): (r: Row)
    ensures r.year == t.year && r.raw == t.raw
    ensures r.tieneCelular == PhoneFlag(t.raw.celular)
    ensures r.tier == PovertyTier(t.raw.pobrezaE, t.raw.pobreza)
    ensures r.ambito == Urbano <==> t.raw.rururb == Some(0)
    ensures r.jefatura == Mujer <==> t.raw.jefaturaMujer == Some(1)
  {
    Row(t.year, t.raw,
        PhoneFlag(t.raw.celular),
        PovertyTier(t.raw.pobrezaE, t.raw.pobreza),
        if t.raw.rururb == Some(0) then Urbano else Rural,
        if t.raw.jefaturaMujer == Some(1) then Mujer else Hombre)
  }

  /** The column assignments applied to every row of the stacked table. */
  function EnrichAll(ts: seq<Tagged>): (rows: seq<Row>)
    ensures |rows| == |ts|
    ensures forall i :: 0 <= i < |ts| ==> rows[i] == Enrich(ts[i])
  {
    seq(|ts|, i requires 0 <= i < |ts| => Enrich(ts[i]))
  }

  /** A row whose derived columns are those its raw codes give. */
  ghost predicate Enriched(r: Row)
  {
    r == Enrich(Tagged(r.year, r.raw))
  }

  /** `cargar_datos_completos`: load and stack the four years, then derive
      the filter columns. */
  method LoadComplete(files: map<int, seq<Raw>>) returns (res: Loaded<seq<Row>>)
    ensures Concat(files, Years).MissingFile? ==> res == MissingFile(Concat(files, Years).year)
    ensures Concat(files, Years).Loaded? ==> res == Loaded(EnrichAll(Concat(files, Years).rows))
    ensures res.Loaded? ==> forall r :: r in res.rows ==> Enriched(r) && r.year in Years
  {
    var stacked := LoadYears(files);
    match stacked {
      case MissingFile(y) =>
        res := MissingFile(y);
      case Loaded(ts) =>
        LoadOrder(files);
        LoadedYearsOnly(files);
        res := Loaded(EnrichAll(ts));
        forall r | r in res.rows ensures Enriched(r) && r.year in Years {
          var i :| 0 <= i < |ts| && res.rows[i] == r;
          assert ts[i] in ts;
        }
    }
  }

  // ---- Sidebar filters ----

  /** The `Ámbito` radio: 'Todos' or one of the two values. */
  datatype AmbitoChoice = Todos | AmbitoIs(ambito: Ambito)

  /** The `Jefatura del Hogar` radio: 'Ambos' or one of the two values. */
  datatype JefaturaChoice = Ambos | JefaturaIs(jefatura: Jefatura)

  /** The widget values: selected years, selected tiers and the two radios. */
  datatype Selection = Selection(years: set<int>, tiers: set<Tier>, ambito: AmbitoChoice, jefatura: JefaturaChoice)

  /** The conjunction a row must satisfy to be shown. */
  predicate Matches(r: Row, sel: Selection)
  {
    && r.year in sel.years
    && r.tier in sel.tiers
    && (sel.ambito == Todos || r.ambito == sel.ambito.ambito)
    && (sel.jefatura == Ambos || r.jefatura == sel.jefatura.jefatura)
  }

  function MatchesFn(sel: Selection): Row -> bool
  {
    r => Matches(r, sel)
  }

  /** The selection as a single conjunctive mask. */
  function Filtered(rows: seq<Row>, sel: Selection): (f: seq<Row>)
    ensures |f| <= |rows|
    ensures forall r :: r in f <==> r in rows && Matches(r, sel)
    ensures f == Pick(rows, MaskOf(rows, MatchesFn(sel)))
  {
    SelectIsPick(rows, MatchesFn(sel));
    Select(rows, MatchesFn(sel))
  }

  function YearTierFn(sel: Selection): Row -> bool
  {
    (r: Row) => r.year in sel.years && r.tier in sel.tiers
  }

  function AmbitoFn(a: Ambito): Row -> bool
  {
    (r: Row) => r.ambito == a
  }

  function JefaturaFn(j: Jefatura): Row -> bool
  {
    (r: Row) => r.jefatura == j
  }

  /** The filtering as the page performs it: first the year and tier masks,
      then the ámbito mask unless 'Todos', then the jefatura mask unless
      'Ambos'. The stepwise result is the conjunctive selection. */
  method FilterRows(rows: seq<Row>, sel: Selection) returns (filtered: seq<Row>)
    ensures filtered == Filtered(rows, sel)
    ensures forall r :: r in filtered <==> r in rows && Matches(r, sel)
  {
    filtered := Select(rows, YearTierFn(sel));
    ghost var mask := YearTierFn(sel);
    if sel.ambito != Todos {
      SelectSelect(rows, mask, AmbitoFn(sel.ambito.ambito));
      filtered := Select(filtered, AmbitoFn(sel.ambito.ambito));
      mask := Both(mask, AmbitoFn(sel.ambito.ambito));
    }
    if sel.jefatura != Ambos {
      SelectSelect(rows, mask, JefaturaFn(sel.jefatura.jefatura));
      filtered := Select(filtered, JefaturaFn(sel.jefatura.jefatura));
      mask := Both(mask, JefaturaFn(sel.jefatura.jefatura));
    }
    assert filtered == Select(rows, mask);
    SelectExt(rows, mask, MatchesFn(sel));
  }

  /** The filtered view keeps exactly the matching rows, in their original
      order, and never adds or edits a row. */
  lemma FilteredIsSubsequence(rows: seq<Row>, sel: Selection)
    ensures SubsequenceOf(Filtered(rows, sel), rows)
    ensures forall r :: r in Filtered(rows, sel) <==> r in rows && Matches(r, sel)
    ensures Filtered(rows, sel) == Pick(rows, MaskOf(rows, MatchesFn(sel)))
  {
    SelectIsSubsequence(rows, MatchesFn(sel));
  }

  /** Applying the same selection twice gives the same view. */
  lemma FilterIdempotent(rows: seq<Row>, sel: Selection)
    ensures Filtered(Filtered(rows, sel), sel) == Filtered(rows, sel)
  {
    SelectIdempotent(rows, MatchesFn(sel));
  }

  /** 'Todos' and 'Ambos' constrain nothing: the view is the year-and-tier
      selection. */
  lemma FilterNoConstraint(rows: seq<Row>, sel: Selection)
    requires sel.ambito == Todos && sel.jefatura == Ambos
    ensures Filtered(rows, sel) == Select(rows, YearTierFn(sel))
  {
    SelectExt(rows, MatchesFn(sel), YearTierFn(sel));
  }

  /** Selecting no year or no tier gives an empty view, not the whole table. */
  lemma FilterEmptySelection(rows: seq<Row>, sel: Selection)
    requires sel.years == {} || sel.tiers == {}
    ensures Filtered(rows, sel) == []
  {
    SelectNone(rows, MatchesFn(sel));
  }

  /** A stricter radio value only narrows the view: the rows shown for a
      single ámbito or jefatura are the rows shown for 'Todos' or 'Ambos'
      that also carry that value. */
  lemma FilterRefines(rows: seq<Row>, sel: Selection)
    ensures Filtered(rows, sel) ==
      Select(Filtered(rows, Selection(sel.years, sel.tiers, Todos, Ambos)), MatchesFn(sel))
  {
    var loose := Selection(sel.years, sel.tiers, Todos, Ambos);
    SelectSelect(rows, MatchesFn(loose), MatchesFn(sel));
    SelectExt(rows, Both(MatchesFn(loose), MatchesFn(sel)), MatchesFn(sel));
  }

  // ---- Weighted metrics of the selection ----

  function Factor(r: Row): real
  {
    r.raw.factor
  }

  function Phone(r: Row): real
  {
    r.tieneCelular as real
  }

  function Income(r: Row): real
  {
    SkipNa(r.raw.ictpc)
  }

  /** The value of a deprivation code in a weighted sum; a missing code is
      skipped. */
  function CodeValue(c: Option<int>): (v: real)
    ensures c.None? ==> v == 0.0
    ensures c.Some? ==> v == c.value as real
  {
    match c
    case None => 0.0
    case Some(v) => v as real
  }

  function DeprivationFn(d: Deprivation): Row -> real
  {
    (r: Row) => CodeValue(r.raw.Carencia(d))
  }

  /** Python's `int()` on a float: truncation toward zero. */
  function TruncToInt(x: real): (n: int)
    ensures x >= 0.0 ==> 0 <= n && n as real <= x < n as real + 1.0
    ensures x < 0.0 ==> n <= 0 && n as real - 1.0 < x <= n as real
  {
    if x >= 0.0 then x.Floor else -((-x).Floor)
  }

  /** `total_hogares_estimado = int(df_filtrado['factor'].sum())`. */
  function Households(rows: seq<Row>): (n: int)
    ensures Weighted.Total(rows, Factor) >= 0.0 ==>
              0 <= n && n as real <= Weighted.Total(rows, Factor) < n as real + 1.0
    ensures Weighted.Total(rows, Factor) < 0.0 ==>
              n <= 0 && n as real - 1.0 < Weighted.Total(rows, Factor) <= n as real
  {
    TruncToInt(Weighted.Total(rows, Factor))
  }

  /** A weighted sum over the selection divided by the truncated household
      count, as every metric of the page does. */
  function PerHousehold(rows: seq<Row>, x: Row -> real, households: int): (v: real)
    requires households != 0
    ensures v * households as real == Weighted.WSum(rows, x, Factor)
  {
    Weighted.WSum(rows, x, Factor) / households as real
  }

  /** The six indicators, in the order the page fills its dictionary. */
  const Carencias: seq<Deprivation> := [Rezedu, Asalud, Segsoc, Cv, Sbv, Ali]

  /** What the page shows for a selection. */
  datatype Report =
    | EmptySelection
    | NoHouseholds
    | Metrics(households: int, accessPct: real, meanIncome: real, deprivationPct: map<Deprivation, real>)

  /** The metrics block: the empty selection is reported and nothing is
      computed; otherwise the household estimate is the truncated weight sum
      and every figure divides by it. A truncated estimate of zero, where the
      page would divide by zero, is reported as undefined. */
  method Summarize(rows: seq<Row>) returns (rep: Report)
    ensures rep == EmptySelection <==> rows == []
    ensures rep == NoHouseholds <==> rows != [] && Households(rows) == 0
    ensures rep.Metrics? ==> rep.households == Households(rows) != 0
    ensures rep.Metrics? ==> rep.accessPct == PerHousehold(rows, Phone, rep.households) * 100.0
    ensures rep.Metrics? ==> rep.meanIncome == PerHousehold(rows, Income, rep.households)
    ensures rep.Metrics? ==> forall d: Deprivation :: d in rep.deprivationPct
    ensures rep.Metrics? ==> forall d :: d in rep.deprivationPct ==>
              rep.deprivationPct[d] == PerHousehold(rows, DeprivationFn(d), rep.households) * 100.0
  {
    if rows == [] {
      return EmptySelection;
    }
    var total := Households(rows);
    if total == 0 {
      return NoHouseholds;
    }
    var access := PerHousehold(rows, Phone, total) * 100.0;
    var income := PerHousehold(rows, Income, total);
    var pct: map<Deprivation, real> := map[];
    for i := 0 to |Carencias|
      invariant forall j :: 0 <= j < i ==> Carencias[j] in pct
      invariant forall d :: d in pct ==> pct[d] == PerHousehold(rows, DeprivationFn(d), total) * 100.0
    {
      var d := Carencias[i];
      pct := pct[d := PerHousehold(rows, DeprivationFn(d), total) * 100.0];
    }
    assert Carencias[0] in pct && Carencias[1] in pct && Carencias[2] in pct;
    assert Carencias[3] in pct && Carencias[4] in pct && Carencias[5] in pct;
    forall d: Deprivation ensures d in pct {
      match d
      case Rezedu => assert d == Carencias[0];
      case Asalud => assert d == Carencias[1];
      case Segsoc => assert d == Carencias[2];
      case Cv => assert d == Carencias[3];
      case Sbv => assert d == Carencias[4];
      case Ali => assert d == Carencias[5];
    }
    rep := Metrics(total, access, income, pct);
  }

  /** Survey expansion factors: non-negative whole numbers. */
  ghost predicate IntegralWeights(rows: seq<Row>)
  {
    forall i :: 0 <= i < |rows| ==> rows[i].raw.factor >= 0.0 && rows[i].raw.factor == rows[i].raw.factor.Floor as real
  }

  /** A sum of non-negative whole numbers is a non-negative whole number. */
  lemma {:induction false} TotalWhole(rows: seq<Row>)
    requires IntegralWeights(rows)
    ensures Weighted.Total(rows, Factor) >= 0.0
    ensures Weighted.Total(rows, Factor) == Weighted.Total(rows, Factor).Floor as real
    decreases |rows|
  {
    if rows != [] {
      TotalWhole(rows[1..]);
      var a := rows[0].raw.factor.Floor;
      var b := Weighted.Total(rows[1..], Factor).Floor;
      assert Weighted.Total(rows, Factor) == (a + b) as real;
    }
  }

  /** With whole-number factors the truncation loses nothing: the household
      estimate is the exact weight sum. */
  lemma HouseholdsExact(rows: seq<Row>)
    requires IntegralWeights(rows)
    ensures Households(rows) as real == Weighted.Total(rows, Factor)
  {
    TotalWhole(rows);
  }

  /** An indicator percentage over a selection with whole-number factors and
      a positive household estimate lies in [0, 100]. */
  lemma IndicatorShareRange(rows: seq<Row>, x: Row -> real)
    requires IntegralWeights(rows) && Households(rows) > 0
    requires Weighted.Within(rows, x, 0.0, 1.0)
    ensures 0.0 <= PerHousehold(rows, x, Households(rows)) * 100.0 <= 100.0
  {
    HouseholdsExact(rows);
    Weighted.WSumBounds(rows, x, Factor, 0.0, 1.0);
    Weighted.QuotientBounds(Weighted.WSum(rows, x, Factor), Households(rows) as real, 0.0, 1.0);
  }

  /** The access percentage of an enriched selection with whole-number
      factors lies in [0, 100]. */
  lemma AccessPctRange(rows: seq<Row>)
    requires IntegralWeights(rows) && Households(rows) > 0
    requires forall r :: r in rows ==> Enriched(r)
    ensures 0.0 <= PerHousehold(rows, Phone, Households(rows)) * 100.0 <= 100.0
  {
    forall i | 0 <= i < |rows| ensures 0.0 <= Phone(rows[i]) <= 1.0 {
      assert Enriched(rows[i]);
    }
    IndicatorShareRange(rows, Phone);
  }

  /** Each deprivation percentage of a selection with whole-number factors
      and 0/1 (or missing) codes lies in [0, 100]. */
  lemma DeprivationPctRange(rows: seq<Row>, d: Deprivation)
    requires IntegralWeights(rows) && Households(rows) > 0
    requires forall i :: 0 <= i < |rows| ==>
      rows[i].raw.Carencia(d) == None || rows[i].raw.Carencia(d) == Some(0) || rows[i].raw.Carencia(d) == Some(1)
    ensures 0.0 <= PerHousehold(rows, DeprivationFn(d), Households(rows)) * 100.0 <= 100.0
  {
    IndicatorShareRange(rows, DeprivationFn(d));
  }

  /** With fractional factors the truncated denominator can push a share past
      100: one household with a phone and factor 1.5 shows 150%. */
  lemma FractionalFactorOvershoots(r: Row)
    requires r.tieneCelular == 1 && r.raw.factor == 1.5
    ensures Households([r]) == 1
    ensures PerHousehold([r], Phone, 1) * 100.0 == 150.0
  {
    assert Weighted.Total([r], Factor) == 1.5;
    assert Weighted.WSum([r], Phone, Factor) == 1.5;
  }
}
