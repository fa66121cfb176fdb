/** The household records of the ENIGH survey extracts (one row per
    household and survey year), the derivation rules shared by the pages,
    and the loader that tags each year's table with its year and stacks
    the four tables. */
module Survey {
  import opened Frames

  /** `condicion_pobreza`. */
  datatype Tier = PobrezaExtrema | PobrezaModerada | NoPobre

  /** `Ambito`. */
  datatype Ambito = Urbano | Rural

  /** `Jefatura_Hogar`. */
  datatype Jefatura = Mujer | Hombre

  /** The six deprivation indicators `ic_rezedu`, `ic_asalud`, `ic_segsoc`,
      `ic_cv`, `ic_sbv` and `ic_ali`. */
  datatype Deprivation = Rezedu | Asalud | Segsoc | Cv | Sbv | Ali

  /** One row of a per-year extract, as read from disk: survey codes that may
      be missing, incomes and spend that may be missing, and the expansion
      factor. */
  datatype Raw = Raw(
    celular: Option<int>,
    conexInte: Option<int>,
    pobrezaE: Option<int>,
    pobreza: Option<int>,
    rururb: Option<int>,
    jefaturaMujer: Option<int>,
    sexoJefe: Option<int>,
    ict: Option<real>,
    ictpc: Option<real>,
    gastoCelular: Option<real>,
    icRezedu: Option<int>,
    icAsalud: Option<int>,
    icSegsoc: Option<int>,
    icCv: Option<int>,
    icSbv: Option<int>,
    icAli: Option<int>,
    factor: real)
  {
    /** The column of one deprivation indicator. */
    function Carencia(d: Deprivation): Option<int>
    {
      match d
      case Rezedu => icRezedu
      case Asalud => icAsalud
      case Segsoc => icSegsoc
      case Cv => icCv
      case Sbv => icSbv
      case Ali => icAli
    }
  }

  /** A row after the loader has added its `Año` column. */
  datatype Tagged = Tagged(year: int, raw: Raw)

  /** The grouping key (`Año`, `condicion_pobreza`). */
  datatype YearTier = YearTier(year: int, tier: Tier)

  /** The outcome of loading: the stacked table, or the first year whose
      file could not be read (the read raises and nothing else is loaded). */
  datatype Loaded<T> = Loaded(rows: T) | MissingFile(year: int)

  /** The survey years, in loading order. */
  const Years: seq<int> := [2018, 2020, 2022, 2024]

  /** `(celular == 1).astype(int)`: a missing code compares unequal. */
  function PhoneFlag(celular: Option<int>): (b: int)
    ensures b == 1 <==> celular == Some(1)
    ensures b == 0 <==> celular != Some(1)
  {
    if celular == Some(1) then 1 else 0
  }

  /** The poverty tier by priority: the extreme flag first, then the moderate
      flag, otherwise not poor. */
  function PovertyTier(pobrezaE: Option<int>, pobreza: Option<int>): (t: Tier)
    ensures t == PobrezaExtrema <==> pobrezaE == Some(1)
    ensures t == PobrezaModerada <==> pobrezaE != Some(1) && pobreza == Some(1)
    ensures t == NoPobre <==> pobrezaE != Some(1) && pobreza != Some(1)
  {
    var conds := [pobrezaE == Some(1), pobreza == Some(1)];
    var r := FirstMatch(conds, [PobrezaExtrema, PobrezaModerada], NoPobre);
    assert conds[0] ==> r == PobrezaExtrema;
    assert !conds[0] && conds[1] ==> r == PobrezaModerada;
    r
  }

  /** `df['Año'] = año` on one year's table. */
  function Tag(table: seq<Raw>, year: int): (t: seq<Tagged>)
    ensures |t| == |table|
    ensures forall i :: 0 <= i < |t| ==> t[i] == Tagged(year, table[i])
  {
    seq(|table|, i requires 0 <= i < |table| => Tagged(year, table[i]))
  }

  /** Stacking the tagged tables of `years` in order (`pd.concat`), stopping
      at the first year whose file is missing. */
  function Concat(files: map<int, seq<Raw>>, years: seq<int>): (res: Loaded<seq<Tagged>>)
    ensures res.MissingFile? ==> res.year in years && res.year !in files
    ensures res.Loaded? ==> forall y :: y in years ==> y in files
    ensures res.Loaded? ==> forall t :: t in res.rows ==> t.year in years
    decreases |years|
  {
    if years == [] then Loaded([])
    else
      match Concat(files, years[..|years| - 1])
      case MissingFile(y) => MissingFile(y)
      case Loaded(acc) =>
        var y := years[|years| - 1];
        if y in files then Loaded(acc + Tag(files[y], y)) else MissingFile(y)
  }

  /** Once a prefix of the years has failed, the whole load fails the same way. */
  lemma {:induction false} ConcatStopsAtMissing(files: map<int, seq<Raw>>, years: seq<int>, n: nat)
    requires n <= |years| && Concat(files, years[..n]).MissingFile?
    ensures Concat(files, years) == Concat(files, years[..n])
    decreases |years| - n
  {
    if n < |years| {
      var front := years[..|years| - 1];
      assert front[..n] == years[..n];
      ConcatStopsAtMissing(files, front, n);
    } else {
      assert years[..n] == years;
    }
  }

  /** The loader loop: for each year in order, read its table, add the `Año`
      column and append it to the list; then stack the list. */
  method LoadYears(files: map<int, seq<Raw>>) returns (res: Loaded<seq<Tagged>>)
    ensures res == Concat(files, Years)
  {
    var acc: seq<Tagged> := [];
    var i := 0;
    while i < |Years|
      invariant 0 <= i <= |Years|
      invariant Concat(files, Years[..i]) == Loaded(acc)
    {
      var year := Years[i];
      assert Years[..i + 1][..i] == Years[..i];
      if year !in files {
        ConcatStopsAtMissing(files, Years, i + 1);
        return MissingFile(year);
      }
      acc := acc + Tag(files[year], year);
      i := i + 1;
    }
    assert Years[..i] == Years;
    res := Loaded(acc);
  }

  /** The stacked table is the 2018, 2020, 2022 and 2024 tables, each tagged
      with its own year, in that order; a missing file makes the load fail
      at the first missing year. */
  lemma LoadOrder(files: map<int, seq<Raw>>)
    ensures Concat(files, Years) ==
      if 2018 !in files then MissingFile(2018)
      else if 2020 !in files then MissingFile(2020)
      else if 2022 !in files then MissingFile(2022)
      else if 2024 !in files then MissingFile(2024)
      else Loaded(Tag(files[2018], 2018) + Tag(files[2020], 2020)
                  + Tag(files[2022], 2022) + Tag(files[2024], 2024))
  {
    var p1, p2, p3 := [2018], [2018, 2020], [2018, 2020, 2022];
    assert p1[..0] == [] && p2[..1] == p1 && p3[..2] == p2 && Years[..3] == p3;
    var c1, c2, c3 := Concat(files, p1), Concat(files, p2), Concat(files, p3);
    assert 2018 in files ==> [] + Tag(files[2018], 2018) == Tag(files[2018], 2018);
    assert c1 == if 2018 in files then Loaded(Tag(files[2018], 2018)) else MissingFile(2018);
    assert c2 == if c1.MissingFile? then c1
                 else if 2020 in files then Loaded(c1.rows + Tag(files[2020], 2020)) else MissingFile(2020);
    assert c3 == if c2.MissingFile? then c2
                 else if 2022 in files then Loaded(c2.rows + Tag(files[2022], 2022)) else MissingFile(2022);
    assert Concat(files, Years) == if c3.MissingFile? then c3
                 else if 2024 in files then Loaded(c3.rows + Tag(files[2024], 2024)) else MissingFile(2024);
  }

  /** Row predicate `df['Año'] == year`. */
  function InYear(year: int): Tagged -> bool
  {
    (t: Tagged) => t.year == year
  }

  lemma SelectTag(table: seq<Raw>, tagged: int, year: int)
    ensures Select(Tag(table, tagged), InYear(year)) == if tagged == year then Tag(table, tagged) else []
  {
    if tagged == year {
      SelectAll(Tag(table, tagged), InYear(year));
    } else {
      SelectNone(Tag(table, tagged), InYear(year));
    }
  }

  /** With all four files present the load succeeds with the four tagged
      tables stacked in year order. */
  lemma LoadedStack(files: map<int, seq<Raw>>)
    requires forall y :: y in Years ==> y in files
    ensures Concat(files, Years) == Loaded(Tag(files[2018], 2018) + Tag(files[2020], 2020)
                                           + Tag(files[2022], 2022) + Tag(files[2024], 2024))
  {
    assert 2018 in Years && 2020 in Years && 2022 in Years && 2024 in Years;
    LoadOrder(files);
  }

  /** Selecting one year from four stacked tables selects from each table. */
  lemma SelectStack(t18: seq<Tagged>, t20: seq<Tagged>, t22: seq<Tagged>, t24: seq<Tagged>, p: Tagged -> bool)
    ensures Select(t18 + t20 + t22 + t24, p) == Select(t18, p) + Select(t20, p) + Select(t22, p) + Select(t24, p)
  {
    SelectAppend(t18 + t20 + t22, t24, p);
    SelectAppend(t18 + t20, t22, p);
    SelectAppend(t18, t20, p);
  }

  /** After a successful load every row carries one of the survey years. */
  lemma LoadedYearsOnly(files: map<int, seq<Raw>>)
    requires forall y :: y in Years ==> y in files
    ensures Concat(files, Years).Loaded?
    ensures forall t :: t in Concat(files, Years).rows ==> t.year in Years
  {
    LoadedStack(files);
    var t18, t20, t22, t24 := Tag(files[2018], 2018), Tag(files[2020], 2020), Tag(files[2022], 2022), Tag(files[2024], 2024);
    forall t: Tagged | t in t18 + t20 + t22 + t24 ensures t.year in Years {
      assert t in t18 || t in t20 || t in t22 || t in t24;
    }
  }

  /** Stacking four parts of which at most the one of `year` is non-empty. */
  lemma StackOfOne<T>(a: seq<T>, b: seq<T>, c: seq<T>, d: seq<T>, year: int)
    ensures (if year == 2018 then a else []) + (if year == 2020 then b else [])
          + (if year == 2022 then c else []) + (if year == 2024 then d else [])
         == if year == 2018 then a else if year == 2020 then b
            else if year == 2022 then c else if year == 2024 then d else []
  {
    var e: seq<T> := [];
    assert e + e == e && a + e == a && b + e == b && c + e == c && e + d == d;
  }

  /** After a successful load the rows tagged with a year are exactly that
      year's table, in its original order, and no row has any other year. */
  lemma LoadedYearTags(files: map<int, seq<Raw>>, year: int)
    requires forall y :: y in Years ==> y in files
    ensures Concat(files, Years).Loaded?
    ensures year in Years ==> Select(Concat(files, Years).rows, InYear(year)) == Tag(files[year], year)
    ensures year !in Years ==> Select(Concat(files, Years).rows, InYear(year)) == []
  {
    LoadedStack(files);
    assert year in Years <==> year == 2018 || year == 2020 || year == 2022 || year == 2024;
    var t18, t20, t22, t24 := Tag(files[2018], 2018), Tag(files[2020], 2020), Tag(files[2022], 2022), Tag(files[2024], 2024);
    var p := InYear(year);
    SelectStack(t18, t20, t22, t24, p);
    SelectTag(files[2018], 2018, year);
    SelectTag(files[2020], 2020, year);
    SelectTag(files[2022], 2022, year);
    SelectTag(files[2024], 2024, year);
    StackOfOne(t18, t20, t22, t24, year);
  }
}
