# Sales star-schema transform, modelled in Dafny

The sales-analytics ETL job reads a sales table and a forecast table, cleans
them (the silver layer) and reshapes the cleaned sales into a star schema (the
gold layer). This project models those two stages.

- **Silver.** The cleaning step fills missing customer values: `Name` becomes
  `"Unknown"`, and `Education` and `Occupation` become `"Not Provided"`. Every
  other column and every row passes through. The stage reports how many rows
  it dropped.
- **Gold.** The modelling step builds three dimensions: product, customer and
  geography. Each is a column selection followed by `drop_duplicates`, which
  keeps first occurrences in input order. The geography dimension then gets a
  surrogate `GeoKey` numbered `1..n`. The cleaned sales are inner-joined to it
  on the four-column tuple `(City, State, CountryRegion, Continent)` and
  projected to the six fact columns. The forecast passes through unchanged.
  Finally the fact-table row count is compared with the input row count.

Tables are `seq`s of immutable row datatypes (`schema.dfy`). A column that can
be empty is a `Cell = Option<Value>`. Empty cells compare equal in both
deduplication and the join, as pandas `drop_duplicates` and `merge` treat
missing values. `Value` is text or a number. Numbers are Dafny `real`s, so
`1` and `1.0` are the same value.

The main result is `Gold.ModelToGold`. The geography dimension is built from
the rows that are joined to it, and its tuples are unique. So every sale
matches exactly one geography row, the fact table has one row per sale, and
the integrity check always takes the "Passed" branch, never the warning.

Files:
- `dedup.dfy` (module `Dedup`): order-preserving deduplication.
- `schema.dfy` (module `Schema`): the row types and column selections.
- `silver.dfy` (module `Silver`): the cleaning stage.
- `gold.dfy` (module `Gold`): the dimensional-modelling stage.
- `pipeline.dfy` (module `Pipeline`): the two stages together, and worked
  examples of the two stages, stated as lemmas over all inputs.

Two consequences of the code worth stating:
- There are three fill rules, one each for `Name`, `Education` and
  `Occupation` (Root/ETL.py:41-43).
- The join is pandas `merge`, which matches missing keys to each other. A sale
  with an empty geography value therefore still finds its geography row, and
  no row is dropped for it.

## Model

| member | source | states |
|---|---|---|
| `Dedup.Distinct` | Root/ETL.py:62-65 | Deduplication never grows a table. It keeps every row value of the input and nothing else. The result has no two equal rows. |
| `Dedup.DistinctKeepsFirstOccurrenceOrder` | Root/ETL.py:62-65 | The kept rows appear in the order of their first occurrence in the input (`keep='first'`). |
| `Dedup.DistinctCharacterized` | Root/ETL.py:62-65 | A table equals the deduplication of `s` if and only if it has no duplicates, has exactly the values of `s`, and lists them in first-occurrence order. |
| `Dedup.DistinctBySeen` | Root/ETL.py:62-65 | One pass with a set of rows already seen gives exactly the same table as `drop_duplicates`. |
| `Dedup.DistinctOfRepeated` | Root/ETL.py:65 | A column holding one repeated value deduplicates to that single value. |
| `Silver.CleanSalesRow` | Root/ETL.py:41-43 | After cleaning, name, education and occupation are all present. Missing ones get their defaults and present ones are kept. Every other column is unchanged. |
| `Silver.CleanSalesRowFixedPoints` | Root/ETL.py:41-43 | Cleaning leaves a row unchanged exactly when its name, education and occupation are all present. |
| `Silver.CleanSalesRowIdempotent` | Root/ETL.py:41-43 | Cleaning a cleaned row changes nothing. |
| `Silver.TransformToSilver` | Root/ETL.py:34-54 | The silver table has one cleaned row per raw row, in the same order. The reported drop count is 0. The forecast is returned unchanged. |
| `Silver.SilverSalesComplete` | Root/ETL.py:41-43 | No cleaned sales row lacks a name, education or occupation. |
| `Silver.SilverUnchangedIff` | Root/ETL.py:41-43 | Cleaning leaves a sales table unchanged if and only if no row lacks one of the three fields. |
| `Silver.SilverIdempotent` | Root/ETL.py:37-54 | Running the cleaning stage on its own output returns the same silver layer. |
| `Gold.DimProduct` | Root/ETL.py:62 | The product dimension is no longer than the sales table and has no duplicate rows. It holds exactly the product column tuples of the sales, in first-occurrence order. |
| `Gold.DimCustomer` | Root/ETL.py:63 | The customer dimension is no longer than the sales table and has no duplicate rows. It holds exactly the customer column tuples of the sales, in first-occurrence order. |
| `Gold.AssignGeoKeys` | Root/ETL.py:66 | Assigning keys keeps the geography tuples and their order. |
| `Gold.GeoKeysAreOneToN` | Root/ETL.py:66 | The assigned keys are exactly `1..n`. They increase with row position, so no two are equal. |
| `Gold.DimGeo` | Root/ETL.py:65-66 | The geography dimension is no longer than the sales table and no two of its rows share a tuple. Its tuples are exactly those of the sales, in first-occurrence order. Row `j` has key `j + 1`. |
| `Gold.MergeOnGeo` | Root/ETL.py:69-70 | A fact row is in the join exactly when it pairs some sale with some geography row of equal tuple, carrying that row's key and the sale's product key, customer key, date, quantity and price. Row counts and keys per sale are stated by `Gold.MergeDropsExactlyUnmatched` and `Gold.MergeKeepsEverySale`. |
| `Gold.GeoMatchesUnique` | Root/ETL.py:69-70 | A sale whose tuple occurs once in the dimension joins to exactly one fact row. That row carries the matching row's key and the sale's other five fact columns. |
| `Gold.GeoMatchesNone` | Root/ETL.py:69 | A sale whose tuple is not in the dimension yields no fact row, because the join is an inner join. |
| `Gold.MergeDropsExactlyUnmatched` | Root/ETL.py:69 | Against a dimension with unique tuples, the fact table has as many rows as there are sales, minus the sales whose tuple is missing. |
| `Gold.MergeKeepsEverySale` | Root/ETL.py:69-70 | If the dimension has unique tuples and contains every sale's tuple, the join gives one fact row per sale, in sale order. Each row has the key of the dimension row with the sale's tuple. |
| `Gold.CountUnmatchedZeroIff` | Root/ETL.py:69 | No sale is unmatched if and only if every sale's tuple is in the dimension. |
| `Gold.IntegrityCheck` | Root/ETL.py:85-88 | The check passes if and only if the two row counts are equal. Otherwise it reports a non-zero loss equal to the input count minus the fact count. |
| `Gold.IntegrityReportCountsUnmatched` | Root/ETL.py:69-86 | Against any dimension with unique tuples, the check passes if and only if every sale's tuple is present. A warning reports exactly the number of unmatched sales. |
| `Gold.ModelToGold` | Root/ETL.py:56-88 | The gold stage gives the three dimensions above and the forecast unchanged. It gives one fact row per sale, keyed by the geography row with the sale's tuple. Its integrity check always passes. |
| `Gold.EverySaleMatchesOneGeoRow` | Root/ETL.py:65-69 | Every sale's tuple is in exactly one geography row, so the join yields exactly one row for that sale. |
| `Pipeline.DimCustomerKeepsPresentFields` | Root/ETL.py:63 | If every sale has a name, education and occupation, then no customer dimension row lacks one. |
| `Pipeline.SilverThenGold` | Root/ETL.py:99-102 | Cleaning followed by modelling keeps one fact row per raw sale and the check passes. The forecast reaches the gold layer unchanged, and every customer row has all three filled fields. |
| `Pipeline.OneSharedGeography` | Root/ETL.py:65-70 | When all sales share one geography tuple, the dimension is that one tuple with key 1, and every fact row carries key 1. |
| `Pipeline.TwoDistinctGeographies` | Root/ETL.py:65-70 | Two sales whose tuples differ in any way, even by one trailing space, give two geography rows with keys 1 and 2. Their fact rows carry those keys, because matching is exact. |

## Left out

- Configuration and filesystem (`load_config`, `setup_environment`, path resolution): plumbing with no data logic.
- Reading the raw JSON files (`extract_from_raw`): library calls whose behaviour is not visible. The model starts from the raw tables as sequences of rows.
- Missing columns: the model assumes that every column named at Root/ETL.py:40-44 and Root/ETL.py:62-70 is present, because each row type has all of its named fields. In the source a missing column raises `KeyError` and the run stops. That includes an empty sales file, whose empty JSON array gives a frame with no columns at all, so the run aborts at Root/ETL.py:40. The model instead gives empty tables and a passing integrity check for empty input.
- CSV writes of the silver and gold tables, and every printed diagnostic: side effects. The integrity outcome is returned as an `IntegrityReport`, and the drop count as a field of the silver layer.
- `OrderDate` parsing with `pd.to_datetime`: a foreign conversion with unspecified failure behaviour. `OrderDate` is an opaque cell carried through unchanged.
- Forecast `Year` conversion with `astype(int)`: a foreign conversion for the same reason. Forecast rows pass through the cleaning stage unchanged.
- `Net Price` and `Quantity` are opaque cells. No arithmetic is done on them and floating point is not modelled.
- `run_etl`: stage sequencing only. `Pipeline.SilverThenGold` states what the composed stages guarantee.
- Gold.MergeOnGeo: the merge and the projection to six columns are one step. The merged frame with all columns is never built. The join assumes that the sales table has no `GeoKey` column of its own, which would make pandas rename the columns.
- Gold.ModelToGold: its contract, like those of `Gold.MergeKeepsEverySale`, `Pipeline.OneSharedGeography` and `Pipeline.TwoDistinctGeographies`, puts fact row `i` in line with sale `i`. Inner `merge` keeps left-row order only from pandas 2.2 on; earlier versions group the result by join key, and the code pins no pandas version. The order-free statement that holds for every version is the contract of `Gold.MergeOnGeo` together with the row counts.
