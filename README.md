# Salary survey explorer: data preparation, in Dafny

This project models the data-cleaning half of `explore_page.py`, the page of a
small salary-exploration web app that loads the developer survey and cleans
it before charting. The model covers four parts:

- **`shorten_categories`**: builds a dictionary from a value-counts series and
  a cutoff. A category counted at least `cutoff` times maps to itself; any
  other category maps to `'Other'`.
- **`clean_experience`**: turns `'More than 50 years'` into 50 and
  `'Less than 1 year'` into 0.5. Everything else goes to Python's `float()`.
- **`clean_education`**: an ordered, first-match-wins substring classifier with
  four buckets: `'Bachelor’s degree'`, `'Master’s degree'`, `'Post grad'` and
  `'Less than a Bachelors'`. The model keeps the typographic apostrophe U+2019.
- **`load_data`** after the file is read. It projects five columns and drops
  rows with nulls. It keeps full-time employees and drops the Employment
  column. It remaps countries through `shorten_categories` with cutoff 400,
  keeps compensations in [10000, 250000] and drops `'Other'` countries. It
  then normalises experience and education and renames ConvertedComp to
  Salary.

Files:

- `collections.dfy` (module `Collections`) holds the generic pieces the
  pipeline is built from. These are `Option` for null cells and failing
  conversions, and the row-wise operations `Filter`, `Map`, `FilterMap` and
  `MapAll`. `MapAll` maps every row and fails as a whole when one row fails,
  the way a column `apply` fails when its function raises. The module also
  holds `KeptIndices` (the positions a filter keeps, with lemmas), occurrence
  `Count`, `Distinct`, and substring `Contains` (Python's `sub in s`).
- `explore_page.dfy` (module `ExplorePage`) holds the model of the source file.

`shorten_categories` is a `method` with the source's index loop, proved equal
to `CategoryMap`. `CategoryMap` is a function that inserts the pairs one by
one, with a later duplicate overwriting an earlier one. The normalisers are
functions. `load_data` is the method `LoadData`. It computes the table column
by column, with one assignment per source line. It is proved equal to
`Prepared`, which states the same computation one row at a time: keep the rows
that `SurvivingRow` accepts, in order, then finish each one with `FinishRow`.
The properties of the cleaned table are proved about `Prepared`.

`float()` is a parameter `toFloat: string -> Option<real>`. `None` stands for
the `ValueError` it raises. That error is not caught: `LoadData` returns `None`
for the whole table. The cleaning is deterministic because every member is a
function of its inputs. Re-running it on the same rows gives the same table.

## Model

| member | source | states |
|---|---|---|
| `ExplorePage.ShortenCategories` | explore_page.py:20-26 | The loop's dictionary is the one obtained by inserting the pairs in order. Its keys are exactly the categories of the series. Every value is its own key or `'Other'`. |
| `ExplorePage.CategoryMapKeys` | explore_page.py:20-26 | The dictionary has one key per category of the series and no other key. |
| `ExplorePage.CategoryMapValues` | explore_page.py:22-25 | Every category maps to itself or to `'Other'`. |
| `ExplorePage.CategoryMapEntry` | explore_page.py:22-25 | Take a category that is not repeated later in the series. If its count is at least the cutoff it maps to itself; this includes a count equal to the cutoff, since the test is `>=`. If its count is below the cutoff it maps to `'Other'`. |
| `ExplorePage.CleanExperience` | explore_page.py:44-48 | `'More than 50 years'` gives 50 and `'Less than 1 year'` gives 0.5. Any other text goes to `float()` unchanged and its result is returned as is, with no clamping. A number is returned unchanged. The result is an error exactly when `float()` fails on a text that is neither phrase. |
| `ExplorePage.CleanEducation` | explore_page.py:66-72 | The result is always one of the four buckets. Containing `'Bachelor’s degree'` gives that bucket, even if `'Master’s degree'` also occurs. `'Master’s degree'` is chosen iff it occurs and the bachelor phrase does not. `'Post grad'` is chosen iff neither degree phrase occurs and `'Professional degree'` or `'Other doctoral'` does. Every other text gives `'Less than a Bachelors'`. |
| `ExplorePage.CleanEducationFollowsRules` | explore_page.py:66-72 | `clean_education` equals an explicit ordered list of (phrases, bucket) rules read top to bottom, with `'Less than a Bachelors'` as the fallback. |
| `ExplorePage.RecleaningBachelors` | explore_page.py:66-67 | Cleaning `'Bachelor’s degree'` again returns it. |
| `ExplorePage.RecleaningMasters` | explore_page.py:66-69 | Cleaning `'Master’s degree'` again returns it. |
| `ExplorePage.RecleaningLessThanBachelors` | explore_page.py:66-72 | Cleaning `'Less than a Bachelors'` again returns it. |
| `ExplorePage.RecleaningPostGrad` | explore_page.py:66-72 | Cleaning `'Post grad'` again returns `'Less than a Bachelors'`, so the normaliser is not idempotent. |
| `ExplorePage.ValueCounts` | explore_page.py:101 | `value_counts` lists each distinct country once, and the categories it lists are exactly the values of the column. Each count is the number of occurrences, which is at least 1. |
| `ExplorePage.LoadData` | explore_page.py:95-109 | The column-by-column pipeline returns `Prepared(raw)`, the row-at-a-time definition. Every row it returns has a salary in [10000, 250000], a country other than `'Other'` and an education bucket. |
| `ExplorePage.EligibleStepsAgree` | explore_page.py:95-99 | Projection, the two null filters, the full-time filter and dropping Employment, applied to whole columns, give the same rows as `EligibleRow` applied row by row. |
| `ExplorePage.RemapStepAgrees` | explore_page.py:102 | Mapping the Country column through the dictionary gives the same rows as remapping each eligible row. |
| `ExplorePage.SurvivalStepsAgree` | explore_page.py:102-105 | The remap, the two salary filters and the `'Other'` filter, applied to whole columns, give the same rows as `SurvivingRow` row by row. |
| `ExplorePage.FinishStepsAgree` | explore_page.py:107-109 | Applying `clean_experience`, then `clean_education`, then the rename to whole columns gives the same result as `FinishRow` per row. That includes failing exactly when some row fails. |
| `ExplorePage.EligibleCountriesMapped` | explore_page.py:101-102 | Every country of the counted rows is a key of the dictionary, so the map never meets a missing key. |
| `ExplorePage.CountryFate` | explore_page.py:96-102 | A country that occurs at least 400 times among the non-null full-time rows maps to itself. One that occurs fewer times maps to `'Other'`. The count is taken before the salary filter. |
| `ExplorePage.SurvivalCriteria` | explore_page.py:95-105 | A raw row survives steps 1-7 iff five things hold. Its five cells are non-null. Employment is `"Employed full-time"`. ConvertedComp is in [10000, 250000]. Its country is not `'Other'`. Its country occurs at least 400 times among the non-null full-time rows. |
| `ExplorePage.SurvivorFinished` | explore_page.py:102-109 | A survivor's finished record is valid and is derived from the raw row. Its country is unchanged, its education is `clean_education` of the raw text, and its experience is `clean_experience` of the raw cell. It came from a full-time row, and its salary is the raw compensation. |
| `ExplorePage.PreparedRows` | explore_page.py:95-109 | The output rows correspond one-to-one with the surviving input positions, in strictly increasing order. Each output row is derived from its input row and is valid. Every surviving input row appears in the output. |
| `ExplorePage.PreparedFails` | explore_page.py:107 | Loading fails exactly when `float()` raises on the YearsCodePro of a row that survives the filters. Rows already filtered out never reach the parse. |
| `ExplorePage.FinishFailsOnlyOnExperience` | explore_page.py:107-109 | A surviving row fails to finish exactly when its experience cell fails to parse. |
| `ExplorePage.LowSalaryNeverSurvives` | explore_page.py:103-104 | A row whose compensation is below 10000 does not survive, whatever the country dictionary. |
| `ExplorePage.LowSalaryDropped` | explore_page.py:103-104 | The position of such a row is not among the survivors of the table. |
| `ExplorePage.ExampleRowFinished` | explore_page.py:107-109 | The worked example row (United States, `'Bachelor’s degree (BA, BS, B.Eng., etc.)'`, `'Less than 1 year'`, 50000) finishes as (United States, `'Bachelor’s degree'`, 0.5, 50000). |
| `ExplorePage.ExampleRowSurvives` | explore_page.py:95-105 | The worked example row survives unchanged when its country has at least 400 eligible rows. |
| `ExplorePage.ExampleRowCleaned` | explore_page.py:95-109 | The worked example's cleaned record appears in the cleaned table. |

## Left out

- Reading the CSV file (explore_page.py:94) is left out, and so is the
  `@st.cache` memoisation (explore_page.py:75). The model starts from the rows
  of the file, given as a sequence.
- `show_explore_page` (explore_page.py:114-161) is left out. It is chart
  rendering and float group-by means handed to the charting library.
- `predict_page.py` is not part of this model. It deserialises a pickled
  model, calls the fitted encoders and regressor of scikit-learn, and draws
  Streamlit widgets.
- `float()` is a parameter, not a model of Python's numeric parser. Only the
  two literal phrases of `clean_experience` have fixed results. A value of
  the CSV column that pandas already read as a number is `Number`. `float()`
  returns such a value unchanged.
- `RemapCountries` requires every country to be a key of the dictionary. For
  a missing key, pandas' `Series.map` would produce NaN, and that case is not
  modelled. `load_data` never meets it: its dictionary is built from the same
  column (`EligibleCountriesMapped`).
- `ValueCounts` lists categories in order of first occurrence. pandas sorts
  them by descending count. The dictionary does not depend on the order,
  because the categories are distinct.
- Columns other than the five used are kept as one map of optional strings
  per row. Only their presence matters, since the projection drops them
  before the null filter.
- Numbers are Dafny `real`. NaN and infinities do not exist in the model. A
  null compensation is `None`, not NaN. `clean_experience` returns the
  integer 50 in the source; the model gives 50.0, which is what that value
  becomes in a float column.
- Strings are sequences of Unicode scalar values, as Python's `str` is.
  Substring containment is plain code-point matching, with no normalisation.
- `ExplorePage.CategoryMapEntry` describes only categories that are not
  repeated later in the series. For a repeated category, the last pair wins,
  as in the loop. `value_counts` never repeats a category.

## Design notes

- The country counts are taken after the null and full-time filters
  (explore_page.py:96-101), not over the whole file and not after the salary
  filters. The model counts the same rows (`EligibleCountries`,
  `CountryFate`).
- Cleaning an already cleaned value is stable for three of the buckets but not
  for `'Post grad'` (`RecleaningPostGrad`). This is harmless in the source,
  which applies `clean_education` exactly once per row.
