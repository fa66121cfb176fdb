/** The first dashboard draft (untitled.py): the four years loaded by hand,
    the derived columns, and the weighted phone-access percentage per
    (year, tier) and per (year, segment, tier). This file reads
    `rururb == 1` as urban, the opposite of the exploration page, and names
    the head of household from `sexo_jefe`. */
module Untitled {
  import opened Frames
  import opened Survey
  import Weighted
  import Grouping

  /** A row of `df_completo` with this file's derived columns. */
  datatype Row = Row(year: int, raw: Raw, tieneCelular: int, ambito: Ambito, jefatura: Jefatura, tier: Tier)

  /** The derived columns of one tagged row. */
  function Enrich(t: Tagged): (r: Row)
    ensures r.year == t.year && r.raw == t.raw
    ensures r.tieneCelular == 1 <==> t.raw.celular == Some(1)
    ensures r.tieneCelular == 0 <==> t.raw.celular != Some(1)
    ensures r.ambito == Urbano <==> t.raw.rururb == Some(1)
    ensures r.jefatura == Hombre <==> t.raw.sexoJefe == Some(1)
    ensures r.tier == PobrezaExtrema <==> t.raw.pobrezaE == Some(1)
    ensures r.tier == PobrezaModerada <==> t.raw.pobrezaE != Some(1) && t.raw.pobreza == Some(1)
    ensures r.tier == NoPobre <==> t.raw.pobrezaE != Some(1) && t.raw.pobreza != Some(1)
  {
    Row(t.year, t.raw,
        PhoneFlag(t.raw.celular),
        if t.raw.rururb == Some(1) then Urbano else Rural,
        if t.raw.sexoJefe == Some(1) then Hombre else Mujer,
        PovertyTier(t.raw.pobrezaE, t.raw.pobreza))
  }

  /** The column assignments applied to every row of the stacked table. */
  function EnrichAll(ts: seq<Tagged>): (rows: seq<Row>)
    ensures |rows| == |ts|
    ensures forall i :: 0 <= i < |ts| ==> rows[i] == Enrich(ts[i])
  {
    seq(|ts|, i requires 0 <= i < |ts| => Enrich(ts[i]))
  }

  /** A row whose derived columns are those its raw codes give. */
  ghost predicate Enriched(r: Row)
  {
    r == Enrich(Tagged(r.year, r.raw))
  }

  /** `cargar_datos`: read the four years one by one (the first unreadable
      file aborts the load), tag each with its year, stack them in year order
      and derive the columns. The hand-written sequence of reads loads the
      same table as the loader loop of the other pages. */
  method LoadData(files: map<int, seq<Raw>>) returns (res: Loaded<seq<Row>>)
    ensures Concat(files, Years).MissingFile? ==> res == MissingFile(Concat(files, Years).year)
    ensures Concat(files, Years).Loaded? ==> res == Loaded(EnrichAll(Concat(files, Years).rows))
    ensures res.Loaded? ==> forall r :: r in res.rows ==> Enriched(r) && r.year in Years
  {
    LoadOrder(files);
    if 2018 !in files { return MissingFile(2018); }
    var df18 := files[2018];
    if 2020 !in files { return MissingFile(2020); }
    var df20 := files[2020];
    if 2022 !in files { return MissingFile(2022); }
    var df22 := files[2022];
    if 2024 !in files { return MissingFile(2024); }
    var df24 := files[2024];
    var t18, t20, t22, t24 := Tag(df18, 2018), Tag(df20, 2020), Tag(df22, 2022), Tag(df24, 2024);
    var completo := t18 + t20 + t22 + t24;
    LoadedYearsOnly(files);
    res := Loaded(EnrichAll(completo));
    forall r | r in res.rows ensures Enriched(r) && r.year in Years {
      var i :| 0 <= i < |completo| && res.rows[i] == r;
      assert completo[i] in completo;
    }
  }

  // ---- Weighted access percentage ----

  /** `tiene_celular` as the weighted sum sees it. */
  function Phone(r: Row): real
  {
    r.tieneCelular as real
  }

  function Factor(r: Row): real
  {
    r.raw.factor
  }

  /** `(tiene_celular · factor).sum() / factor.sum() · 100` over one group;
      undefined when the group weighs nothing. */
  function AccessPct(g: seq<Row>): (p: Option<real>)
    ensures p.None? <==> Weighted.Total(g, Factor) == 0.0
    ensures p.Some? ==> p.value * Weighted.Total(g, Factor) == 100.0 * Weighted.WSum(g, Phone, Factor)
  {
    Weighted.Pct(g, Phone, Factor)
  }

  function YearTierOf(r: Row): YearTier
  {
    YearTier(r.year, r.tier)
  }

  /** `df_evolucion`: the access percentage of every (year, tier) group. */
  function AccessByYearTier(rows: seq<Row>): (m: map<YearTier, Option<real>>)
    ensures m.Keys == Grouping.KeysOf(rows, YearTierOf)
    ensures forall k :: k in m ==> exists r :: r in rows && YearTierOf(r) == k
  {
    var m := Grouping.GroupBy(rows, YearTierOf, AccessPct);
    forall k | k in m ensures exists r :: r in rows && YearTierOf(r) == k {
      var i :| 0 <= i < |rows| && YearTierOf(rows[i]) == k;
      assert rows[i] in rows;
    }
    m
  }

  /** With positive factors, the access percentage of any group of enriched
      rows lies in [0, 100]; it is 100 exactly when every row of the group
      has `celular == 1` and 0 exactly when none has. */
  lemma GroupAccess<K>(rows: seq<Row>, key: Row -> K, k: K)
    requires forall r :: r in rows ==> Enriched(r) && r.raw.factor > 0.0
    requires Grouping.Group(rows, key, k) != []
    ensures AccessPct(Grouping.Group(rows, key, k)).Some?
    ensures 0.0 <= AccessPct(Grouping.Group(rows, key, k)).value <= 100.0
    ensures AccessPct(Grouping.Group(rows, key, k)).value == 100.0
            <==> forall r :: r in rows && key(r) == k ==> r.raw.celular == Some(1)
    ensures AccessPct(Grouping.Group(rows, key, k)).value == 0.0
            <==> forall r :: r in rows && key(r) == k ==> r.raw.celular != Some(1)
  {
    var g := Grouping.Group(rows, key, k);
    forall i | 0 <= i < |g| ensures Factor(g[i]) > 0.0 && (Phone(g[i]) == 0.0 || Phone(g[i]) == 1.0) {
      assert g[i] in g;
    }
    Weighted.PctOfIndicator(g, Phone, Factor);
    assert Weighted.Within(g, Phone, 1.0, 1.0) <==> forall r :: r in g ==> r.raw.celular == Some(1) by {
      if Weighted.Within(g, Phone, 1.0, 1.0) {
        forall r | r in g ensures r.raw.celular == Some(1) {
          var i :| 0 <= i < |g| && g[i] == r;
        }
      }
    }
    assert Weighted.Within(g, Phone, 0.0, 0.0) <==> forall r :: r in g ==> r.raw.celular != Some(1) by {
      if Weighted.Within(g, Phone, 0.0, 0.0) {
        forall r | r in g ensures r.raw.celular != Some(1) {
          var i :| 0 <= i < |g| && g[i] == r;
        }
      }
    }
  }

  /** Every (year, tier) percentage of an enriched table with positive
      factors lies in [0, 100], is 100 exactly when every household of the
      group has a phone and 0 exactly when none has. */
  lemma AccessRange(rows: seq<Row>, k: YearTier)
    requires forall r :: r in rows ==> Enriched(r) && r.raw.factor > 0.0
    requires k in AccessByYearTier(rows)
    ensures AccessByYearTier(rows)[k].Some?
    ensures 0.0 <= AccessByYearTier(rows)[k].value <= 100.0
    ensures AccessByYearTier(rows)[k].value == 100.0
            <==> forall r :: r in rows && YearTierOf(r) == k ==> r.raw.celular == Some(1)
    ensures AccessByYearTier(rows)[k].value == 0.0
            <==> forall r :: r in rows && YearTierOf(r) == k ==> r.raw.celular != Some(1)
  {
    Grouping.GroupsNonEmpty(rows, YearTierOf, k);
    GroupAccess(rows, YearTierOf, k);
  }

  /** A household with a phone code and a factor and nothing else recorded. */
  function Household(celular: Option<int>, factor: real): Raw
  {
    Raw(celular, None, None, None, None, None, None, None, None, None,
        None, None, None, None, None, None, factor)
  }

  /** Three households of one group, weighing 2, 3 and 5, of which the first
      and the last have a phone: 7 of 10 weighted households, 70 %. */
  lemma AccessExample()
    ensures AccessPct([Enrich(Tagged(2024, Household(Some(1), 2.0))),
                       Enrich(Tagged(2024, Household(Some(2), 3.0))),
                       Enrich(Tagged(2024, Household(Some(1), 5.0)))]) == Some(70.0)
  {
    var g := [Enrich(Tagged(2024, Household(Some(1), 2.0))),
              Enrich(Tagged(2024, Household(Some(2), 3.0))),
              Enrich(Tagged(2024, Household(Some(1), 5.0)))];
    assert g[1..][1..] == [g[2]];
    assert Weighted.Total(g, Factor) == 10.0;
    assert Weighted.WSum(g, Phone, Factor) == 7.0;
  }

  /** Every row falls into the (year, tier) group of its own key, which is
      reported, and into no other. */
  lemma YearTierPartition(rows: seq<Row>, r: Row)
    requires r in rows
    ensures YearTierOf(r) in AccessByYearTier(rows)
    ensures forall k :: r in Grouping.Group(rows, YearTierOf, k) <==> k == YearTierOf(r)
  {
    Grouping.GroupPartition(rows, YearTierOf, r);
  }

  // ---- Access by segment ----

  /** The radio's segment column: `Ambito` or `Jefatura_Hogar`. */
  datatype Segment = AmbitoCol | JefaturaCol

  /** `col_segmento`: `Ambito` for the 'Ámbito (Rural/Urbano)' option and
      `Jefatura_Hogar` for any other value. */
  function SegmentColumnOf(choice: string): (c: Segment)
    ensures c == AmbitoCol <==> choice == "Ámbito (Rural/Urbano)"
    ensures c == JefaturaCol <==> choice != "Ámbito (Rural/Urbano)"
  {
    if choice == "Ámbito (Rural/Urbano)" then AmbitoCol else JefaturaCol
  }

  /** A value of the segment column. */
  datatype SegValue = AmbitoVal(ambito: Ambito) | JefaturaVal(jefatura: Jefatura)

  function SegmentOf(col: Segment, r: Row): SegValue
  {
    match col
    case AmbitoCol => AmbitoVal(r.ambito)
    case JefaturaCol => JefaturaVal(r.jefatura)
  }

  /** The grouping key (`Año`, segment column, `condicion_pobreza`). */
  datatype SegmentKey = SegmentKey(year: int, segment: SegValue, tier: Tier)

  function SegmentKeyOf(col: Segment): Row -> SegmentKey
  {
    (r: Row) => SegmentKey(r.year, SegmentOf(col, r), r.tier)
  }

  /** `df_segmento`: the access percentage of every (year, segment, tier)
      group for the chosen segment column. */
  function AccessBySegment(rows: seq<Row>, choice: string): (m: map<SegmentKey, Option<real>>)
    ensures m.Keys == Grouping.KeysOf(rows, SegmentKeyOf(SegmentColumnOf(choice)))
    ensures forall k :: k in m ==> (k.segment.AmbitoVal? <==> choice == "Ámbito (Rural/Urbano)")
  {
    var col := SegmentColumnOf(choice);
    var m := Grouping.GroupBy(rows, SegmentKeyOf(col), AccessPct);
    forall k | k in m ensures (k.segment.AmbitoVal? <==> col == AmbitoCol) {
      var i :| 0 <= i < |rows| && SegmentKeyOf(col)(rows[i]) == k;
    }
    m
  }

  /** The segment percentages obey the same bounds and extremes as the
      (year, tier) ones. */
  lemma SegmentAccessRange(rows: seq<Row>, choice: string, k: SegmentKey)
    requires forall r :: r in rows ==> Enriched(r) && r.raw.factor > 0.0
    requires k in AccessBySegment(rows, choice)
    ensures AccessBySegment(rows, choice)[k].Some?
    ensures 0.0 <= AccessBySegment(rows, choice)[k].value <= 100.0
    ensures AccessBySegment(rows, choice)[k].value == 100.0
            <==> forall r :: r in rows && SegmentKeyOf(SegmentColumnOf(choice))(r) == k ==> r.raw.celular == Some(1)
    ensures AccessBySegment(rows, choice)[k].value == 0.0
            <==> forall r :: r in rows && SegmentKeyOf(SegmentColumnOf(choice))(r) == k ==> r.raw.celular != Some(1)
  {
    var key := SegmentKeyOf(SegmentColumnOf(choice));
    Grouping.GroupsNonEmpty(rows, key, k);
    GroupAccess(rows, key, k);
  }

  /** Every row falls into exactly one (year, segment, tier) group, which is
      reported. */
  lemma SegmentPartition(rows: seq<Row>, choice: string, r: Row)
    requires r in rows
    ensures SegmentKeyOf(SegmentColumnOf(choice))(r) in AccessBySegment(rows, choice)
    ensures forall k :: r in Grouping.Group(rows, SegmentKeyOf(SegmentColumnOf(choice)), k)
                        <==> k == SegmentKeyOf(SegmentColumnOf(choice))(r)
  {
    Grouping.GroupPartition(rows, SegmentKeyOf(SegmentColumnOf(choice)), r);
  }

  /** The two values of a segment column. */
  function SegValues(col: Segment): (vs: (SegValue, SegValue))
    ensures vs.0 != vs.1
    ensures vs.0.AmbitoVal? && vs.1.AmbitoVal? <==> col == AmbitoCol
  {
    match col
    case AmbitoCol => (AmbitoVal(Urbano), AmbitoVal(Rural))
    case JefaturaCol => (JefaturaVal(Hombre), JefaturaVal(Mujer))
  }

  /** Every row carries one of the two values of the segment column. */
  lemma SegValuesCover(col: Segment, r: Row)
    ensures SegmentOf(col, r) == SegValues(col).0 || SegmentOf(col, r) == SegValues(col).1
  {
    match col
    case AmbitoCol => { match r.ambito { case Urbano => case Rural => } }
    case JefaturaCol => { match r.jefatura { case Hombre => case Mujer => } }
  }

  /** The two segment groups of a (year, tier) split its weight: the weight
      of the (year, tier) group is the sum of the weights of its two
      (year, segment, tier) groups. */
  lemma {:induction false} SegmentsSplitWeight(rows: seq<Row>, col: Segment, k: YearTier)
    ensures Weighted.Total(Grouping.Group(rows, YearTierOf, k), Factor)
         == Weighted.Total(Grouping.Group(rows, SegmentKeyOf(col), SegmentKey(k.year, SegValues(col).0, k.tier)), Factor)
          + Weighted.Total(Grouping.Group(rows, SegmentKeyOf(col), SegmentKey(k.year, SegValues(col).1, k.tier)), Factor)
    decreases |rows|
  {
    if rows != [] {
      var r := rows[0];
      SegmentsSplitWeight(rows[1..], col, k);
      var key := SegmentKeyOf(col);
      var k1, k2 := SegmentKey(k.year, SegValues(col).0, k.tier), SegmentKey(k.year, SegValues(col).1, k.tier);
      Weighted.TotalSelectUnfold(rows, Grouping.HasKey(YearTierOf, k), Factor);
      Weighted.TotalSelectUnfold(rows, Grouping.HasKey(key, k1), Factor);
      Weighted.TotalSelectUnfold(rows, Grouping.HasKey(key, k2), Factor);
      var h, h1, h2 := Grouping.HasKey(YearTierOf, k)(r), Grouping.HasKey(key, k1)(r), Grouping.HasKey(key, k2)(r);
      SegValuesCover(col, r);
      assert key(r) == SegmentKey(r.year, SegmentOf(col, r), r.tier);
      assert YearTierOf(r) == YearTier(r.year, r.tier) && k == YearTier(k.year, k.tier);
      assert h == (r.year == k.year && r.tier == k.tier);
      assert h1 == (h && SegmentOf(col, r) == SegValues(col).0);
      assert h2 == (h && SegmentOf(col, r) == SegValues(col).1);
      var w := Factor(r);
      assert (if h then w else 0.0) == (if h1 then w else 0.0) + (if h2 then w else 0.0);
    }
  }
}
