# Digital divide dashboard: the data pipeline, verified

The dashboard analyses phone and internet access in Mexican households using
the ENIGH survey extracts for 2018, 2020, 2022 and 2024. Three of its files
compute over the records: `pages/04_Exploracion_Interactiva.py`,
`pages/02_Profundizando_la_Brecha.py` (with its copy) and `untitled.py`.
Each of them loads the four yearly tables, tags every row with its year,
stacks the tables and derives columns from the raw survey codes:

- the phone indicator `tiene_celular`;
- the poverty tier `condicion_pobreza`, chosen extreme-first;
- the urban/rural `Ambito`;
- the head-of-household gender `Jefatura_Hogar`;
- the phone-spend share of income `pct_gasto_celular`;
- the connection category `categoria_conexion`.

These files then filter rows and compute survey-weighted figures:

- `pages/02_Profundizando_la_Brecha.py` and `untitled.py` divide a weighted
  sum Σ(x·factor) by the group's weight Σ(factor).
- `pages/04_Exploracion_Interactiva.py` divides by `int(Σ factor)`, the weight
  sum truncated to a whole number, which it also shows as the household
  estimate. With fractional factors the two denominators differ, and a
  percentage can exceed 100.

The other pages show literal result tables and charts and read no survey
file.

This project models that pipeline in Dafny and proves what it promises.

| module | models |
|---|---|
| `Frames` | Missing cells (`Option`; pandas `==` on NaN is false and `sum` skips it), `np.select`, boolean-mask row selection. |
| `Weighted` | Weighted totals, sums, means and percentages, with their bounds and extreme cases. |
| `Grouping` | `groupby`: the keys present, the group of each key, one statistic per group. |
| `Survey` | The raw record, the shared derivation rules, and the loader loop of `pages/04_Exploracion_Interactiva.py` and `pages/02_Profundizando_la_Brecha.py`. |
| `Exploracion` | `pages/04_Exploracion_Interactiva.py`: derived columns, sidebar filters, weighted metrics of the selection. |
| `Brecha` | `pages/02_Profundizando_la_Brecha.py` and its byte-identical copy `02_Profundizando_la_Brecha.py`: spend ratio, connection category, extreme-poverty subset, composition shares, mean spend ratio. |
| `Untitled` | `untitled.py`: the hand-written loader, access per (year, tier) and per (year, segment, tier). |

The pages disagree about the urban code, and the model keeps each file's own
convention:

- `pages/04_Exploracion_Interactiva.py:35` reads `rururb == 0` as urban.
- `untitled.py:34` reads `rururb == 1` as urban.

Arithmetic is exact (`real`). A per-year table is a given sequence of
records, and a file that cannot be read is a year missing from the `files`
map.

None of the three loaders catches a read error, so the first missing file
aborts the whole load. The model returns `MissingFile(year)` for the first
missing year in loading order.

## Model

| member | source | states |
|---|---|---|
| Frames.SkipNa | pages/04_Exploracion_Interactiva.py:103 | pandas `sum` skips NaN: a missing real adds 0 to a weighted sum, and a present one adds its value. |
| Frames.FirstMatch | pages/04_Exploracion_Interactiva.py:29-33 | `np.select`: the choice of the first condition that holds wins; the default applies when none holds. |
| Frames.Select | pages/04_Exploracion_Interactiva.py:82-85 | A boolean mask keeps a row exactly when the row is in the table and satisfies the predicate, and never lengthens the table. |
| Frames.SelectIsSubsequence | pages/04_Exploracion_Interactiva.py:82-91 | A mask selection is a subsequence of its input, order preserved. |
| Frames.SelectIsPick | pages/04_Exploracion_Interactiva.py:82-85 | Selecting by a predicate is indexing with that predicate's boolean series. |
| Frames.SelectAppend | pages/04_Exploracion_Interactiva.py:25 | Selecting from two stacked tables is stacking the two selections. |
| Frames.SelectAll | pages/04_Exploracion_Interactiva.py:82-85 | A mask true on every row keeps the table unchanged. |
| Frames.SelectNone | pages/04_Exploracion_Interactiva.py:82-85 | A mask false on every row keeps nothing. |
| Frames.SelectExt | pages/04_Exploracion_Interactiva.py:87-91 | Masks that agree on every row select the same rows. |
| Frames.SelectSelect | pages/04_Exploracion_Interactiva.py:87-91 | Masking a masked table is masking once by the conjunction of the two masks. |
| Frames.SelectIdempotent | pages/04_Exploracion_Interactiva.py:82-91 | Applying the same mask twice equals applying it once. |
| Weighted.Total | pages/02_Profundizando_la_Brecha.py:69 | `df['factor'].sum()` over a group. It is a plain function. Weighted.TotalNonNegative and Weighted.TotalPositive state its sign. A row's factor counts even when its measure is missing. |
| Weighted.WSum | untitled.py:59 | `(df[x] * df['factor']).sum()`. It is a plain function; Weighted.WSumBounds, Weighted.WSumZero, Weighted.WSumFullIff and Weighted.WSumEmptyIff state its properties. A missing measure enters it as 0 (Frames.SkipNa, Exploracion.CodeValue). |
| Weighted.Mean | pages/02_Profundizando_la_Brecha.py:69 | The weighted mean is undefined exactly when the weights sum to 0; otherwise mean·Σw = Σ(x·w). |
| Weighted.Pct | untitled.py:59 | The weighted percentage is undefined exactly when the weights sum to 0; otherwise pct·Σw = 100·Σ(x·w). |
| Weighted.SelectTotalNonNegative | 02_Profundizando_la_Brecha.py:47 | With non-negative factors, any selection weighs at least 0. |
| Weighted.TotalNonNegative | pages/04_Exploracion_Interactiva.py:101 | Non-negative factors sum to a non-negative total. |
| Weighted.TotalPositive | untitled.py:59 | Positive factors on a non-empty group sum to a positive total. |
| Weighted.WSumBounds | pages/02_Profundizando_la_Brecha.py:69 | With non-negative weights and values in [lo, hi], lo·Σw ≤ Σ(x·w) ≤ hi·Σw. |
| Weighted.MeanBounds | pages/02_Profundizando_la_Brecha.py:67-71 | A weighted mean with positive weights is defined and lies within any bounds of the group's values. |
| Weighted.WSumZero | pages/02_Profundizando_la_Brecha.py:69 | If every value is 0, the weighted sum is 0. |
| Weighted.MeanZero | pages/02_Profundizando_la_Brecha.py:69 | A weighted mean of all-zero values over a non-zero weight is 0. |
| Weighted.WSumFullIff | untitled.py:59 | With positive weights and a 0/1 indicator, Σ(x·w) = Σw if and only if every indicator is 1. |
| Weighted.WSumEmptyIff | untitled.py:59 | With positive weights and a 0/1 indicator, Σ(x·w) = 0 if and only if every indicator is 0. |
| Weighted.PctOfIndicator | untitled.py:57-61 | An indicator percentage with positive weights is defined and lies in [0, 100]; it is 100 if and only if all rows have the indicator, and 0 if and only if none do. |
| Grouping.GroupBy | untitled.py:57-61 | `groupby().apply()` yields one value per key present; no group is empty; each value is the statistic of its group. |
| Grouping.GroupsNonEmpty | untitled.py:57 | A key is present if and only if its group is non-empty. |
| Grouping.GroupPartition | untitled.py:57 | Every row lies in the group of its own key, which is present, and in no other group. |
| Survey.PhoneFlag | pages/04_Exploracion_Interactiva.py:28 | `tiene_celular` is 1 exactly when `celular == 1`, and 0 otherwise, including a missing code. |
| Survey.PovertyTier | pages/04_Exploracion_Interactiva.py:29-33 | Exactly one tier: extreme if and only if `pobreza_e == 1`, even when `pobreza == 1`; moderate if and only if not extreme and `pobreza == 1`; not poor if and only if neither flag is 1. |
| Survey.Tag | pages/04_Exploracion_Interactiva.py:22 | Tagging keeps every row, in order, and sets its `Año` to the table's year. |
| Survey.Concat | pages/04_Exploracion_Interactiva.py:19-25 | Stacking the tagged tables stops at the first failed read. A failed load names a year of the list whose file is missing. A successful load had every file, and each of its rows carries a year of the list. |
| Survey.ConcatStopsAtMissing | pages/04_Exploracion_Interactiva.py:19-21 | Once a year's read has failed, the whole load fails with that year. |
| Survey.LoadYears | pages/04_Exploracion_Interactiva.py:17-25 | The loader loop produces the stacking of the tagged tables in year order, or the first missing year. |
| Survey.LoadOrder | pages/04_Exploracion_Interactiva.py:17-25 | The loaded table is the 2018, 2020, 2022 and 2024 tables tagged with their own years, in that order; otherwise the first missing year in that order. |
| Survey.SelectTag | pages/04_Exploracion_Interactiva.py:22 | A tagged table's rows for a year are all of it when the year is its own, and none otherwise. |
| Survey.LoadedStack | pages/02_Profundizando_la_Brecha.py:11-18 | With all four files present, the load succeeds with the four tagged tables stacked. |
| Survey.SelectStack | pages/02_Profundizando_la_Brecha.py:18 | Selecting from the stacked tables selects from each table in turn. |
| Survey.LoadedYearsOnly | pages/02_Profundizando_la_Brecha.py:11-18 | After a successful load, every row's `Año` is one of the four survey years. |
| Survey.LoadedYearTags | pages/04_Exploracion_Interactiva.py:17-25 | After a successful load, the rows carrying a year are exactly that year's table, in order; no other year appears. |
| Exploracion.Enrich | pages/04_Exploracion_Interactiva.py:28-36 | Derived columns: phone flag and tier as above; Urbano if and only if `rururb == 0`; Mujer if and only if `Jefatura_Mujer == 1`. |
| Exploracion.EnrichAll | pages/04_Exploracion_Interactiva.py:28-36 | The column assignments keep the row count and derive each row from that same row. |
| Exploracion.LoadComplete | pages/04_Exploracion_Interactiva.py:16-38 | `cargar_datos_completos` gives the enriched stacked table, or the first missing year; every row is correctly derived and carries a survey year. |
| Exploracion.Filtered | pages/04_Exploracion_Interactiva.py:82-91 | The conjunctive mask keeps a row if and only if the row is in the table and matches the selection, and never lengthens the table. It is the mask applied to the table, so a repeated row is kept as often as it occurs. |
| Exploracion.Matches | pages/04_Exploracion_Interactiva.py:82-91 | The conjunction: year selected, tier selected, ámbito equal unless 'Todos', jefatura equal unless 'Ambos'. It is a plain predicate; `Exploracion.FilterRows` and `Exploracion.Filtered` state the filter through it. |
| Exploracion.FilterRows | pages/04_Exploracion_Interactiva.py:82-91 | The stepwise filtering equals the single conjunctive selection; a row is kept if and only if its year and tier are selected and it matches the ámbito unless 'Todos' and the jefatura unless 'Ambos'. |
| Exploracion.FilteredIsSubsequence | pages/04_Exploracion_Interactiva.py:82-91 | The view is a subsequence of the table and contains exactly the matching rows. It is the selection mask applied to the table, so a repeated row is kept as often as it occurs. |
| Exploracion.FilterIdempotent | pages/04_Exploracion_Interactiva.py:82-91 | Filtering the view again by the same selection changes nothing. |
| Exploracion.FilterNoConstraint | pages/04_Exploracion_Interactiva.py:87-91 | 'Todos' and 'Ambos' leave the year-and-tier selection unchanged. |
| Exploracion.FilterEmptySelection | pages/04_Exploracion_Interactiva.py:83-84 | Selecting no year or no tier gives an empty view. |
| Exploracion.FilterRefines | pages/04_Exploracion_Interactiva.py:87-91 | A specific ámbito or jefatura only narrows the 'Todos'/'Ambos' view. |
| Exploracion.TruncToInt | pages/04_Exploracion_Interactiva.py:101 | `int()` truncates toward zero: the result is within 1 of the value, on the side of zero. |
| Exploracion.CodeValue | pages/04_Exploracion_Interactiva.py:121 | A deprivation code in the weighted sum: a missing code adds 0, and a present code adds its value. |
| Exploracion.Households | pages/04_Exploracion_Interactiva.py:101 | `int()` of the weight sum: for a non-negative sum, the largest whole number not above it; for a negative sum, truncation toward zero. |
| Exploracion.PerHousehold | pages/04_Exploracion_Interactiva.py:102-103 | A weighted sum over the truncated household count: value · count = Σ(x·factor). The deprivation figures at line 121 use it too. |
| Exploracion.Summarize | pages/04_Exploracion_Interactiva.py:97-121 | No metrics for an empty selection. Otherwise the households figure is the truncated weight sum, and access %, mean income and each of the six deprivation % divide by it. All six deprivations get a figure. A truncated sum of 0 is reported as undefined. |
| Exploracion.TotalWhole | pages/04_Exploracion_Interactiva.py:101 | Non-negative whole-number factors sum to a non-negative whole number. |
| Exploracion.HouseholdsExact | pages/04_Exploracion_Interactiva.py:101 | With whole-number factors, truncation loses nothing: the household estimate equals the weight sum. |
| Exploracion.IndicatorShareRange | pages/04_Exploracion_Interactiva.py:102 | With whole-number factors and a value in [0, 1], a per-household percentage lies in [0, 100]. |
| Exploracion.AccessPctRange | pages/04_Exploracion_Interactiva.py:102 | The access percentage of an enriched selection with whole-number factors lies in [0, 100]. |
| Exploracion.DeprivationPctRange | pages/04_Exploracion_Interactiva.py:118-121 | Each deprivation percentage with 0/1 or missing codes and whole-number factors lies in [0, 100]. |
| Exploracion.FractionalFactorOvershoots | pages/04_Exploracion_Interactiva.py:101-102 | Dividing by the truncated count can exceed 100: one household with a phone and factor 1.5 shows 150 %. |
| Brecha.SpendPct | pages/02_Profundizando_la_Brecha.py:20-22 | The ratio is exactly 0 when income is missing or not positive. Otherwise it is present exactly when the spend is, and ratio·income = spend·100. |
| Brecha.Connection | pages/02_Profundizando_la_Brecha.py:23-29 | Total and exclusive: Sin Celular if and only if `celular == 2`; Sin Internet if and only if `celular == 1` and `conex_inte != 1`; Con Internet if and only if both are 1; Dato Faltante for any other phone code. |
| Brecha.Enrich | 02_Profundizando_la_Brecha.py:19-32 | The spend ratio, the connection category and the extreme-first tier of each row. |
| Brecha.EnrichAll | pages/02_Profundizando_la_Brecha.py:19-32 | The column assignments keep the row count and derive each row from that same row. |
| Brecha.LoadComplete | 02_Profundizando_la_Brecha.py:10-33 | `cargar_datos_completos` gives the enriched stacked table, or the first missing year; every row is correctly derived and carries a survey year. |
| Brecha.ExtremeSubset | pages/02_Profundizando_la_Brecha.py:40 | `df_p_extrema` holds exactly the extreme-poverty rows, in order. It is the tier mask applied to the table, so a repeated row is kept as often as it occurs. |
| Brecha.CategoryWeight | pages/02_Profundizando_la_Brecha.py:47 | `groupby(['Año','categoria_conexion'])['factor'].sum()` for one key. It is a plain function. Brecha.CategoryWeightNonNegative, Brecha.AbsentCategoryWeighsNothing and Brecha.CategoryWithinYear state its properties. |
| Brecha.YearWeight | pages/02_Profundizando_la_Brecha.py:48 | The transform's `x.sum()` for one year. It is a plain function. Brecha.YearWeightIsYearTotal proves that it equals the total weight of the year's rows. |
| Brecha.Share | pages/02_Profundizando_la_Brecha.py:48 | `x / x.sum() * 100` for one key. It is undefined exactly when the year weighs 0; otherwise share · year weight = category weight · 100. |
| Brecha.Composition | pages/02_Profundizando_la_Brecha.py:47-48 | One share per (year, category) present in the subset. |
| Brecha.YearWeightIsYearTotal | 02_Profundizando_la_Brecha.py:48 | The per-year denominator, summed over the categories, is the total weight of the year's rows: the categories partition each year. |
| Brecha.AbsentCategoryWeighsNothing | pages/02_Profundizando_la_Brecha.py:47 | A (year, category) pair absent from the table weighs 0. |
| Brecha.ShareOrZeroIsShare | pages/02_Profundizando_la_Brecha.py:48 | For a year of non-zero weight, each category's share is its weight over the year's weight times 100; an absent category counts as 0. |
| Brecha.SharesSumTo100 | pages/02_Profundizando_la_Brecha.py:47-48 | For a year of non-zero weight, the four category shares sum to 100. |
| Brecha.CategoryWeightNonNegative | 02_Profundizando_la_Brecha.py:47 | With non-negative factors, a category weighs at least 0. |
| Brecha.CategoryWithinYear | 02_Profundizando_la_Brecha.py:47-48 | With non-negative factors, a category weighs between 0 and its year's weight. |
| Brecha.ShareRange | 02_Profundizando_la_Brecha.py:47-48 | With non-negative factors, every defined share lies in [0, 100]. |
| Brecha.SpendByYearTier | pages/02_Profundizando_la_Brecha.py:67-71 | One weighted mean spend ratio per (year, tier) present. |
| Brecha.MeanSpend | pages/02_Profundizando_la_Brecha.py:69 | Undefined exactly when the group weighs 0; otherwise mean · Σfactor = Σ(ratio·factor), where a missing ratio adds 0. |
| Brecha.MeanSpendBounds | pages/02_Profundizando_la_Brecha.py:67-71 | With positive factors and present ratios in [lo, hi], a group's mean is defined and lies in [lo, hi], so between the group's minimum and maximum ratio. |
| Brecha.MeanSpendZero | 02_Profundizando_la_Brecha.py:67-71 | A group whose ratios are all 0 has mean 0. |
| Brecha.MissingRatioLowersMean | pages/02_Profundizando_la_Brecha.py:67-71 | A missing ratio adds 0 to the numerator, but its factor still counts in the denominator. A row with no ratio and a row with ratio 10, both of factor 1, give a group mean of 5, below every ratio present. |
| Untitled.Enrich | untitled.py:33-40 | Phone flag and tier as above; Urbano if and only if `rururb == 1`; Hombre if and only if `sexo_jefe == 1`. |
| Untitled.EnrichAll | untitled.py:33-40 | The column assignments keep the row count and derive each row from that same row. |
| Untitled.LoadData | untitled.py:16-41 | The four hand-written reads load the same table as the loader loop: the enriched stack in year order, or the first missing year; every row is correctly derived and carries a survey year. |
| Untitled.AccessPct | untitled.py:59 | The lambda of lines 59 and 94: undefined exactly when the group weighs 0; otherwise pct · Σfactor = 100 · Σ(tiene_celular·factor). |
| Untitled.AccessByYearTier | untitled.py:57-61 | One access percentage per (year, tier) present, each key carried by some row. |
| Untitled.GroupAccess | untitled.py:59 | For any grouping of enriched rows with positive factors, a group's access % lies in [0, 100]; it is 100 if and only if every row of the group has `celular == 1`, and 0 if and only if none does. |
| Untitled.AccessRange | untitled.py:57-61 | The same bounds and extremes for every (year, tier) percentage. |
| Untitled.AccessExample | untitled.py:59 | Weights 2, 3 and 5 with indicators 1, 0 and 1 give 70 %. |
| Untitled.YearTierPartition | untitled.py:57 | Every row falls into exactly one (year, tier) group, which is reported. |
| Untitled.SegmentColumnOf | untitled.py:90 | The segment column is `Ambito` if and only if the radio value is 'Ámbito (Rural/Urbano)', and `Jefatura_Hogar` otherwise. |
| Untitled.AccessBySegment | untitled.py:92-96 | One access % per (year, segment, tier) present; the segment values are ámbitos if and only if the ámbito option was chosen. |
| Untitled.SegmentAccessRange | untitled.py:92-96 | Segment percentages obey the same bounds and extremes. |
| Untitled.SegmentPartition | untitled.py:92 | Every row falls into exactly one (year, segment, tier) group, which is reported. |
| Untitled.SegValues | untitled.py:34-35 | Each segment column has two distinct values. They are ámbito values if and only if the column is `Ambito`. |
| Untitled.SegValuesCover | untitled.py:34-35 | Every row carries one of its segment column's two values. |
| Untitled.SegmentsSplitWeight | untitled.py:92-96 | The weight of a (year, tier) group is the sum of the weights of its two (year, segment, tier) groups. |

Proof helpers, which model no line of their own: `Weighted.TotalAppend`,
`Weighted.TotalSelectUnfold`, `Weighted.QuotientBounds`, `Brecha.FourParts`,
`Brecha.PercentOfWhole`, `Survey.StackOfOne`.

## Left out

- Streamlit UI is not modelled: page configuration, sidebar widgets, metrics display, tables, headers and markdown. Widget values are plain inputs.
- Plotly charts and the `:.1f` / `:,.2f` display formatting are presentation only and are not modelled.
- `pd.read_parquet` and `@st.cache_data` are not modelled. The per-year tables are a given map from year to rows, and a missing entry stands for an unreadable file.
- Floating point, NaN and infinity are replaced by exact `real` arithmetic. NaN cells are `None`, and a zero weight sum gives `None` or a distinct report instead of NaN or infinity.
- Exploracion.Summarize: when the truncated household count is 0, the page divides by zero. The model reports this case as `NoHouseholds` rather than reproducing infinity or NaN.
- Exploracion.IndicatorShareRange, Exploracion.AccessPctRange, Exploracion.DeprivationPctRange: the [0, 100] bound is proved only for whole-number factors. With fractional factors the truncated denominator can exceed the bound (Exploracion.FractionalFactorOvershoots).
- Brecha.SpendPct: `np.where` evaluates the division on every row before choosing; the model divides only on the branch that keeps the result.
- Brecha.MeanSpendBounds: the bound holds only for groups where every row has a ratio. A row with a missing `gasto_celular` over a positive `ict` has a NaN ratio. `sum()` skips that ratio, but the row's factor stays in the denominator, so the mean can fall below the group's smallest ratio (Brecha.MissingRatioLowersMean).
- Brecha.SpendPct: a ratio of infinity from a missing `ict` cannot arise, because such a row takes the 0 branch. A missing `gasto_celular` over a positive income is `None`, pandas' NaN.
- Column assignment into `df_completo` in place is modelled as a per-row map over the stacked sequence (`EnrichAll`). Aliasing between frames and the `.copy()` of the extreme subset are not modelled.
- `untitled.py` uses `np.where` and `np.select` without importing numpy, so it would raise a NameError. The model gives the rule those lines evidently intend.
- pandas groupby output order and `reset_index` are not modelled. Groups are modelled as a map keyed by the grouping key.
- Untitled.SegmentsSplitWeight: states that weights add across segments only. The model does not state that the (year, tier) percentage is the weighted average of its segment percentages.
- `01_Panorama_General.py`, `pages/01_Panorama_General.py` and the machine-learning segmentation page are not part of this model. They contain literal result arrays and charts, not computation over the records.
