/** The connection-quality and spending page (pages/02_Profundizando_la_Brecha.py
    and its byte-identical copy 02_Profundizando_la_Brecha.py): the spend
    ratio, the connection category and the tier of each row, the
    extreme-poverty subset, the per-year composition by connection category
    and the weighted mean spend ratio per year and tier. */
module Brecha {
  import opened Frames
  import opened Survey
  import Weighted
  import Grouping

  /** `categoria_conexion`. */
  datatype Conexion = SinCelular | CelularSinInternet | CelularConInternet | DatoFaltante

  /** A row of `df_completo` with this page's derived columns; `pctGasto` is
      None where the page computes NaN. */
  datatype Row = Row(year: int, raw: Raw, pctGasto: Option<real>, categoria: Conexion, tier: Tier)

  /** `pct_gasto_celular`: the phone spend as a percentage of total income
      when the income is present and positive, and exactly 0 otherwise; a
      missing spend over a positive income stays missing (NaN). No division
      happens on a missing or non-positive income. */
  function SpendPct(ict: Option<real>, gasto: Option<real>): (p: Option<real>)
    ensures !(ict.Some? && ict.value > 0.0) ==> p == Some(0.0)
    ensures ict.Some? && ict.value > 0.0 ==> (p.Some? <==> gasto.Some?)
    ensures ict.Some? && ict.value > 0.0 && gasto.Some? ==> p.value * ict.value == gasto.value * 100.0
  {
    match ict
    case None => Some(0.0)
    case Some(income) =>
      if income > 0.0 then
        match gasto
        case None => None
        case Some(spend) => Some(spend / income * 100.0)
      else Some(0.0)
  }

  /** The four-way connection category, by priority, with "Dato Faltante"
      for any other phone code. */
  function Connection(celular: Option<int>, conexInte: Option<int>): (c: Conexion)
    ensures c == SinCelular <==> celular == Some(2)
    ensures c == CelularSinInternet <==> celular == Some(1) && conexInte != Some(1)
    ensures c == CelularConInternet <==> celular == Some(1) && conexInte == Some(1)
    ensures c == DatoFaltante <==> celular != Some(1) && celular != Some(2)
  {
    var conds := [celular == Some(2),
                  celular == Some(1) && conexInte != Some(1),
                  celular == Some(1) && conexInte == Some(1)];
    var c := FirstMatch(conds, [SinCelular, CelularSinInternet, CelularConInternet], DatoFaltante);
    assert conds[0] ==> c == SinCelular;
    assert !conds[0] && conds[1] ==> c == CelularSinInternet;
    assert !conds[0] && !conds[1] && conds[2] ==> c == CelularConInternet;
    c
  }

  /** The derived columns of one tagged row. */
  function Enrich(t: Tagged): (r: Row)
    ensures r.year == t.year && r.raw == t.raw
    ensures r.pctGasto == SpendPct(t.raw.ict, t.raw.gastoCelular)
    ensures r.categoria == Connection(t.raw.celular, t.raw.conexInte)
    ensures r.tier == PobrezaExtrema <==> t.raw.pobrezaE == Some(1)
    ensures r.tier == PobrezaModerada <==> t.raw.pobrezaE != Some(1) && t.raw.pobreza == Some(1)
    ensures r.tier == NoPobre <==> t.raw.pobrezaE != Some(1) && t.raw.pobreza != Some(1)
  {
    Row(t.year, t.raw,
        SpendPct(t.raw.ict, t.raw.gastoCelular),
        Connection(t.raw.celular, t.raw.conexInte),
        PovertyTier(t.raw.pobrezaE, t.raw.pobreza))
  }

  function EnrichAll(ts: seq<Tagged>): (rows: seq<Row>)
    ensures |rows| == |ts|
    ensures forall i :: 0 <= i < |ts| ==> rows[i] == Enrich(ts[i])
  {
    seq(|ts|, i requires 0 <= i < |ts| => Enrich(ts[i]))
  }

  /** `cargar_datos_completos`: load and stack the four years, then add the
      spend ratio, the connection category and the tier. */
  method LoadComplete(files: map<int, seq<Raw>>) returns (res: Loaded<seq<Row>>)
    ensures Concat(files, Years).MissingFile? ==> res == MissingFile(Concat(files, Years).year)
    ensures Concat(files, Years).Loaded? ==> res == Loaded(EnrichAll(Concat(files, Years).rows))
    ensures res.Loaded? ==> forall r :: r in res.rows ==> r == Enrich(Tagged(r.year, r.raw)) && r.year in Years
  {
    var stacked := LoadYears(files);
    match stacked {
      case MissingFile(y) =>
        res := MissingFile(y);
      case Loaded(ts) =>
        LoadOrder(files);
        LoadedYearsOnly(files);
        res := Loaded(EnrichAll(ts));
        forall r | r in res.rows ensures r == Enrich(Tagged(r.year, r.raw)) && r.year in Years {
          var i :| 0 <= i < |ts| && res.rows[i] == r;
          assert ts[i] in ts;
        }
    }
  }

  function IsExtreme(r: Row): bool
  {
    r.tier == PobrezaExtrema
  }

  /** `df_p_extrema`: exactly the extreme-poverty rows, in table order, each
      kept as often as it occurs (the boolean mask of the tier column). */
  function ExtremeSubset(rows: seq<Row>): (ext: seq<Row>)
    ensures forall r :: r in ext <==> r in rows && r.tier == PobrezaExtrema
    ensures SubsequenceOf(ext, rows)
    ensures ext == Pick(rows, MaskOf(rows, IsExtreme))
  {
    SelectIsSubsequence(rows, IsExtreme);
    SelectIsPick(rows, IsExtreme);
    Select(rows, IsExtreme)
  }

  function Factor(r: Row): real
  {
    r.raw.factor
  }

  // ---- Composition of access by connection category ----

  /** The grouping key (`Año`, `categoria_conexion`). */
  datatype YearCat = YearCat(year: int, categoria: Conexion)

  function YearCatOf(r: Row): YearCat
  {
    YearCat(r.year, r.categoria)
  }

  function OfYear(year: int): Row -> bool
  {
    (r: Row) => r.year == year
  }

  /** `groupby(['Año', 'categoria_conexion'])['factor'].sum()` for one key;
      a key that does not occur weighs nothing. */
  function CategoryWeight(ext: seq<Row>, k: YearCat): real
  {
    Weighted.Total(Grouping.Group(ext, YearCatOf, k), Factor)
  }

  /** The per-year denominator of the transform: the sum of that year's
      category weights. */
  function YearWeight(ext: seq<Row>, year: int): real
  {
    CategoryWeight(ext, YearCat(year, SinCelular)) + CategoryWeight(ext, YearCat(year, CelularSinInternet))
    + CategoryWeight(ext, YearCat(year, CelularConInternet)) + CategoryWeight(ext, YearCat(year, DatoFaltante))
  }

  /** A category's share of its year's weight, in percent; undefined when
      the year weighs nothing. */
  function Share(ext: seq<Row>, k: YearCat): (s: Option<real>)
    ensures s.None? <==> YearWeight(ext, k.year) == 0.0
    ensures s.Some? ==> s.value * YearWeight(ext, k.year) == CategoryWeight(ext, k) * 100.0
  {
    var t := YearWeight(ext, k.year);
    if t == 0.0 then None else Some(CategoryWeight(ext, k) / t * 100.0)
  }

  /** `df_calidad['Porcentaje']`: one share per (year, category) that occurs. */
  function Composition(ext: seq<Row>): (m: map<YearCat, Option<real>>)
    ensures m.Keys == Grouping.KeysOf(ext, YearCatOf)
  {
    map k | k in Grouping.KeysOf(ext, YearCatOf) :: Share(ext, k)
  }

  /** The year's denominator is the total weight of the year's rows: the four
      categories partition every year. */
  lemma {:induction false} YearWeightIsYearTotal(ext: seq<Row>, year: int)
    ensures YearWeight(ext, year) == Weighted.Total(Select(ext, OfYear(year)), Factor)
    decreases |ext|
  {
    if ext != [] {
      var r := ext[0];
      YearWeightIsYearTotal(ext[1..], year);
      var k1, k2, k3, k4 := YearCat(year, SinCelular), YearCat(year, CelularSinInternet),
                            YearCat(year, CelularConInternet), YearCat(year, DatoFaltante);
      Weighted.TotalSelectUnfold(ext, OfYear(year), Factor);
      Weighted.TotalSelectUnfold(ext, Grouping.HasKey(YearCatOf, k1), Factor);
      Weighted.TotalSelectUnfold(ext, Grouping.HasKey(YearCatOf, k2), Factor);
      Weighted.TotalSelectUnfold(ext, Grouping.HasKey(YearCatOf, k3), Factor);
      Weighted.TotalSelectUnfold(ext, Grouping.HasKey(YearCatOf, k4), Factor);
      var h1, h2, h3, h4 := Grouping.HasKey(YearCatOf, k1)(r), Grouping.HasKey(YearCatOf, k2)(r),
                            Grouping.HasKey(YearCatOf, k3)(r), Grouping.HasKey(YearCatOf, k4)(r);
      assert YearCatOf(r) == YearCat(r.year, r.categoria);
      assert h1 == (r.year == year && r.categoria == SinCelular);
      assert h2 == (r.year == year && r.categoria == CelularSinInternet);
      assert h3 == (r.year == year && r.categoria == CelularConInternet);
      assert h4 == (r.year == year && r.categoria == DatoFaltante);
      var w := Factor(r);
      assert (if h1 then w else 0.0) + (if h2 then w else 0.0) + (if h3 then w else 0.0) + (if h4 then w else 0.0)
             == (if OfYear(year)(r) then w else 0.0);
    }
  }

  /** The share a composition map gives a (year, category), 0 for a pair
      that does not occur. */
  function ShareOrZero(m: map<YearCat, Option<real>>, k: YearCat): real
  {
    if k in m && m[k].Some? then m[k].value else 0.0
  }

  /** A pair that does not occur in the table weighs nothing. */
  lemma AbsentCategoryWeighsNothing(ext: seq<Row>, k: YearCat)
    requires k !in Grouping.KeysOf(ext, YearCatOf)
    ensures CategoryWeight(ext, k) == 0.0
  {
    Grouping.GroupsNonEmpty(ext, YearCatOf, k);
  }

  /** The composition gives every (year, category) of a year with non-zero
      weight its category weight over the year weight, a pair that does not
      occur included (as 0). */
  lemma ShareOrZeroIsShare(ext: seq<Row>, k: YearCat)
    requires YearWeight(ext, k.year) != 0.0
    ensures ShareOrZero(Composition(ext), k) == CategoryWeight(ext, k) / YearWeight(ext, k.year) * 100.0
  {
    if k !in Composition(ext) {
      AbsentCategoryWeighsNothing(ext, k);
    }
  }

  lemma FourParts(a: real, b: real, c: real, d: real)
    requires a + b + c + d != 0.0
    ensures var t := a + b + c + d; a / t * 100.0 + b / t * 100.0 + c / t * 100.0 + d / t * 100.0 == 100.0
  {
    var t := a + b + c + d;
    assert a / t + b / t + c / t + d / t == t / t;
  }

  /** For a year with non-zero weight the shares of its four categories sum
      to 100. */
  lemma SharesSumTo100(ext: seq<Row>, year: int)
    requires YearWeight(ext, year) != 0.0
    ensures ShareOrZero(Composition(ext), YearCat(year, SinCelular))
          + ShareOrZero(Composition(ext), YearCat(year, CelularSinInternet))
          + ShareOrZero(Composition(ext), YearCat(year, CelularConInternet))
          + ShareOrZero(Composition(ext), YearCat(year, DatoFaltante)) == 100.0
  {
    var k1, k2, k3, k4 := YearCat(year, SinCelular), YearCat(year, CelularSinInternet),
                          YearCat(year, CelularConInternet), YearCat(year, DatoFaltante);
    ShareOrZeroIsShare(ext, k1);
    ShareOrZeroIsShare(ext, k2);
    ShareOrZeroIsShare(ext, k3);
    ShareOrZeroIsShare(ext, k4);
    FourParts(CategoryWeight(ext, k1), CategoryWeight(ext, k2), CategoryWeight(ext, k3), CategoryWeight(ext, k4));
  }

  /** With non-negative factors no category weighs less than nothing. */
  lemma CategoryWeightNonNegative(ext: seq<Row>, k: YearCat)
    requires forall r :: r in ext ==> r.raw.factor >= 0.0
    ensures CategoryWeight(ext, k) >= 0.0
  {
    forall r | r in ext ensures Factor(r) >= 0.0 { }
    assert Grouping.Group(ext, YearCatOf, k) == Select(ext, Grouping.HasKey(YearCatOf, k));
    Weighted.SelectTotalNonNegative(ext, Grouping.HasKey(YearCatOf, k), Factor);
  }

  /** With non-negative factors a category never outweighs its year. */
  lemma CategoryWithinYear(ext: seq<Row>, k: YearCat)
    requires forall r :: r in ext ==> r.raw.factor >= 0.0
    ensures 0.0 <= CategoryWeight(ext, k) <= YearWeight(ext, k.year)
  {
    var y := k.year;
    CategoryWeightNonNegative(ext, YearCat(y, SinCelular));
    CategoryWeightNonNegative(ext, YearCat(y, CelularSinInternet));
    CategoryWeightNonNegative(ext, YearCat(y, CelularConInternet));
    CategoryWeightNonNegative(ext, YearCat(y, DatoFaltante));
    match k.categoria
    case SinCelular => assert k == YearCat(y, SinCelular);
    case CelularSinInternet => assert k == YearCat(y, CelularSinInternet);
    case CelularConInternet => assert k == YearCat(y, CelularConInternet);
    case DatoFaltante => assert k == YearCat(y, DatoFaltante);
  }

  /** A part of a positive whole is between 0 and 100 percent of it. */
  lemma PercentOfWhole(a: real, t: real)
    requires t > 0.0 && 0.0 <= a <= t
    ensures 0.0 <= a / t * 100.0 <= 100.0
  {
    Weighted.QuotientBounds(a, t, 0.0, 1.0);
  }

  /** With non-negative factors every share lies in [0, 100]. */
  lemma ShareRange(ext: seq<Row>, k: YearCat)
    requires forall r :: r in ext ==> r.raw.factor >= 0.0
    requires k in Composition(ext) && Composition(ext)[k].Some?
    ensures 0.0 <= Composition(ext)[k].value <= 100.0
  {
    var a, t := CategoryWeight(ext, k), YearWeight(ext, k.year);
    CategoryWithinYear(ext, k);
    assert Composition(ext)[k] == Share(ext, k);
    assert t != 0.0;
    PercentOfWhole(a, t);
  }

  // ---- Weighted mean spend ratio per (year, tier) ----

  function YearTierOf(r: Row): YearTier
  {
    YearTier(r.year, r.tier)
  }

  /** The spend ratio as the weighted sum sees it: NaN is skipped. */
  function Spend(r: Row): real
  {
    SkipNa(r.pctGasto)
  }

  /** Σ(pct · factor) / Σ(factor) over one group. */
  function MeanSpend(g: seq<Row>): (m: Option<real>)
    ensures m.None? <==> Weighted.Total(g, Factor) == 0.0
    ensures m.Some? ==> m.value * Weighted.Total(g, Factor) == Weighted.WSum(g, Spend, Factor)
  {
    Weighted.Mean(g, Spend, Factor)
  }

  /** `df_gasto`: the weighted mean spend ratio of every (year, tier) group. */
  function SpendByYearTier(rows: seq<Row>): (m: map<YearTier, Option<real>>)
    ensures m.Keys == Grouping.KeysOf(rows, YearTierOf)
  {
    Grouping.GroupBy(rows, YearTierOf, MeanSpend)
  }

  /** With positive factors and a present ratio in [lo, hi] on every row of a
      group, the group's weighted mean lies in [lo, hi]: between the group's
      smallest and largest ratio. */
  lemma MeanSpendBounds(rows: seq<Row>, k: YearTier, lo: real, hi: real)
    requires k in SpendByYearTier(rows)
    requires forall r :: r in rows && YearTierOf(r) == k ==>
      r.raw.factor > 0.0 && r.pctGasto.Some? && lo <= r.pctGasto.value <= hi
    ensures SpendByYearTier(rows)[k].Some?
    ensures lo <= SpendByYearTier(rows)[k].value <= hi
  {
    var g := Grouping.Group(rows, YearTierOf, k);
    forall i | 0 <= i < |g| ensures Factor(g[i]) > 0.0 && lo <= Spend(g[i]) <= hi {
      assert g[i] in g;
    }
    Weighted.MeanBounds(g, Spend, Factor, lo, hi);
  }

  /** A group in which every ratio is 0 has weighted mean 0. */
  lemma MeanSpendZero(rows: seq<Row>, k: YearTier)
    requires k in SpendByYearTier(rows)
    requires forall r :: r in rows && YearTierOf(r) == k ==> r.raw.factor > 0.0 && r.pctGasto == Some(0.0)
    ensures SpendByYearTier(rows)[k] == Some(0.0)
  {
    var g := Grouping.Group(rows, YearTierOf, k);
    forall i | 0 <= i < |g| ensures Factor(g[i]) > 0.0 && Spend(g[i]) == 0.0 {
      assert g[i] in g;
    }
    Weighted.TotalPositive(g, Factor);
    Weighted.MeanZero(g, Spend, Factor);
  }

  /** A missing ratio is left out of the numerator but its factor stays in
      the denominator, so the mean can fall below every ratio present: a
      household with no ratio and one with ratio 10, both of factor 1, have
      mean 5. */
  lemma MissingRatioLowersMean(a: Row, b: Row)
    requires a.pctGasto == None && a.raw.factor == 1.0
    requires b.pctGasto == Some(10.0) && b.raw.factor == 1.0
    requires YearTierOf(a) == YearTierOf(b)
    ensures MeanSpend([a, b]) == Some(5.0)
    ensures SpendByYearTier([a, b])[YearTierOf(a)] == Some(5.0)
  {
    var rows := [a, b];
    assert rows[1..] == [b] && [b][1..] == [];
    assert Factor(a) == 1.0 && Factor(b) == 1.0 && Spend(a) == 0.0 && Spend(b) == 10.0;
    assert Weighted.Total([b], Factor) == 1.0;
    assert Weighted.WSum([b], Spend, Factor) == 10.0;
    assert Weighted.Total(rows, Factor) == 2.0;
    assert Weighted.WSum(rows, Spend, Factor) == 10.0;
    var k := YearTierOf(a);
    assert YearTierOf(rows[0]) == k;
    SelectAll(rows, Grouping.HasKey(YearTierOf, k));
  }
}
