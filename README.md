# Nutrition API core, modelled in Dafny

This project models the logic at the heart of a small nutrition service.
The service ingests the Swiss food composition spreadsheet into two SQL
tables and then answers two HTTP questions: "which foods of each category
are richest in nutrient N?" and "which foods should I eat in phase P of the
menstrual cycle?". The model covers three pieces of that service.

- **Category matcher** (`app/utils.py`).
  - `valid_category` rejects a category whose lower-case name contains "boissons", "sucreries" or "bonbons".
  - It also rejects seafood ("fruits de mer") when the keyword is exactly "Fruits".
  - `get_category_mapping` maps each keyword to the known category names that contain it, case-insensitively, and that are valid for it.
  - Modules: `Categories`, using `Text` for lower-casing and substring search, and `Dict` for the Python dict.
- **Ingestion cleaning** (`scripts/populate.py`). A data frame is a sequence of labelled columns of cells (`Sheets`).
  - `clean_data` does four things:
    - drops repeated rows;
    - drops four named columns and the columns whose names start with "Source", "Dérivation de la valeur" or "Activité de";
    - deletes every `(...)` group that is followed by another group;
    - normalises the column names, then removes their accents (`Cleaning`).
  - The three regular expressions are written out as scanners (`Patterns`).
  - `create_measures_table` derives one (name, unit, conversion) row per column name that carries a unit. An unknown unit makes the derivation fail (`Measures`).
  - `create_food_table` does two things:
    - strips the units from the column names;
    - cleans the 37 nutrient columns (placeholders and missing values become 0, and `<` is deleted).

    It updates the frame it receives in place: column names first, then the nutrient columns, one loop turn per nutrient (`FoodTable`, with a `Frame` class).
- **Response assembly** (`app/main.py`, module `Api`).
  - `read_top_foods` validates its parameters, maps ten fixed keywords to categories, and appends one ranked entry per category.
  - `read_food_by_phase` looks up the phase in the static `phases` table. It then fills a dict keyed by nutrient name, where a later entry overwrites an earlier one.

## How the model is built

- **Python dicts** are insertion-ordered entry lists (`Dict`):
  - `d[k] = v` overwrites in place or appends;
  - iteration follows insertion order;
  - `Build` replays a list of assignments.
- **pandas `KeyError`s** become `Failure` values of `Result`. The same goes for the HTTP errors raised by the validators.
- **Unseen collaborators** are function parameters. This covers the validators, `map_categories` and the two rankers, which live in code that is not part of this model.
  - `str(x)` on a number is also a parameter, `show`.
  - The NFKD normalisation of `remove_accents` is a parameter, `nfkd`.
  - Each API method also returns the trace of the collaborator calls it made, so the order of calls can be stated.
- **Lower-casing** is per character. It covers ASCII, the Latin-1 capitals, Œ and Ÿ; every other character is left unchanged.
- **Numbers** are `real`, and cells are `Text | Num | Missing`.
- **The phases table** is the one of `app/main.py`. Its phase names are French ("menstruelle", "folliculaire", "ovulatoire", "luteale"), and "ovulatoire" lists `zinc` twice.
- **Ranking answers** depend on the query. The ranking collaborator of `read_food_by_phase` receives the position of the call as well as the nutrient name and the percentage, so two queries for the same nutrient may return different answers.
- **The "µg" entry of `CONVERSION_FACTORS`** can never be reached by a cleaned column name, because those names are ASCII (`Measures.CleanedHeadersNoMicrograms`).

## Model

| member | source | states |
|---|---|---|
| Categories.ForbiddenWordRejects | app/utils.py:5-9 | A category whose lower-case form contains one of the three forbidden words is invalid, whatever the keyword. |
| Categories.SeafoodRuleOnlyForFruits | app/utils.py:11-14 | If no forbidden word occurs, a category is valid exactly when it is not the case that the keyword is "Fruits" and the lower-case name contains "fruits de mer"; for any other keyword it is valid. |
| Categories.RejectedExamples | tests/test_foods_utils.py:25-29 | The four rejected cases of the validity test: milk drinks, sweets, candy, and seafood for "Fruits". |
| Categories.AcceptedExamples | tests/test_foods_utils.py:30-38 | The accepted cases: seafood for "Poisson", fresh vegetables for "Légumes", and fruits for "Fruits". |
| Categories.NoForbiddenWord | app/utils.py:5-9 | A name with no b/B, and no c/C or no r/R, contains none of the forbidden words once lower-cased. |
| Categories.Accepted | app/utils.py:5-15 | Such a name is valid for every keyword except "Fruits", and for "Fruits" too when it is shorter than "fruits de mer". |
| Categories.NoInitialNoMatch | app/utils.py:27-31 | A name that lacks both cases of the keyword's first letter does not match the keyword. |
| Categories.MatchesAtStart | app/utils.py:29 | A name that starts with the keyword, up to case, contains the lower-cased keyword once lower-cased. |
| Categories.MatchingSoundComplete | app/utils.py:27-31 | A name is in a keyword's list exactly when it is a known name that contains the keyword case-insensitively and is valid for it. |
| Categories.MatchingOrder | app/utils.py:27-31 | A keyword's list is a subsequence of the known names, in their order. |
| Categories.MatchingCount | app/utils.py:27-31 | A matching name listed n times among the known names appears n times in the list; a name that does not match appears 0 times. |
| Categories.NoMatchIsEmpty | app/utils.py:27-31 | A keyword's list is empty exactly when no known name matches it. An empty list is a value, not an error. |
| Categories.GetCategoryMapping | app/utils.py:17-33 | The loop builds a dict whose keys are the keywords, each once and in first-occurrence order, and every keyword maps to its matching list. |
| Categories.CategoryMappingProperties | app/utils.py:25-31 | The resulting dict has the keywords as keys, and each entry holds that keyword's matching list. |
| Categories.CategoryMappingExample | tests/test_foods_utils.py:75-92 | The keywords ["Fruits","Légumes"] over the four stored names give {"Fruits": ["Fruits frais"], "Légumes": ["Légumes cuits"]}. |
| Categories.FruitsExample | tests/test_foods_utils.py:75-89 | Only "Fruits frais" matches "Fruits": seafood is excluded and "Boissons sucrées" is forbidden. |
| Categories.VegetablesExample | tests/test_foods_utils.py:75-89 | Only "Légumes cuits" matches "Légumes". |
| Text.Lower | app/utils.py:8 | `str.lower`, character by character: the length is kept and each character is replaced by its lower-case form. |
| Text.LowerIsLower | scripts/populate.py:112 | The result of lowering has no upper-case character, and lowering it again changes nothing. |
| Text.Trim | scripts/populate.py:108 | `str.strip` returns the slice `s[a..b]` of the input such that every character before `a` and from `b` on is a stripped character, and the slice neither starts nor ends with one. |
| Text.TrimKeeps | scripts/populate.py:108 | Stripping a string whose ends are not stripped characters changes nothing. |
| Text.RemoveChar | scripts/populate.py:109 | `replace(c, "")` leaves no `c`. The result is a subsequence of the input, and it holds every other character as many times as the input does. It is the identity when `c` is absent. |
| Text.ReplaceChar | scripts/populate.py:110-111 | `replace(c, d)` keeps the length and swaps exactly the occurrences of `c` for `d`. |
| Text.ReplaceCharMembers | scripts/populate.py:110-111 | For `d` other than `c`, no `c` is left. The result holds the characters of the input other than `c`, plus `d` when `c` occurred. |
| Text.AsciiOnly | scripts/populate.py:95 | `encode("ascii", "ignore")` is a subsequence of the input. It holds every character below 128 as many times as the input does and no other character. ASCII text is unchanged. |
| Patterns.FirstGroup | scripts/populate.py:131 | `re.search(r"\((.*?)\)")` returns text made of characters of the input, with no `)` and no newline. Which text it is, FirstGroupSpec states. |
| Patterns.FirstGroupFound | scripts/populate.py:131-132 | The search fails exactly when no position of the string starts a group. |
| Patterns.FirstGroupSpec | scripts/populate.py:131-136 | The search fails exactly when no group starts anywhere. Otherwise it returns the text between the `(` at the earliest position that starts a group and the first `)` after it. |
| Patterns.FirstGroupAt | scripts/populate.py:131-136 | When the first group starts at `j`, the search returns the text of that group. |
| Patterns.GroupAfterPlainPrefix | scripts/populate.py:131-135 | For a header `p(u)q` whose `p` has no `(`, the search returns `u`, and `re.sub` keeps `p`, deletes `(u)` and goes on in `q`. |
| Patterns.RemoveGroupsAt | scripts/populate.py:135 | `re.sub` keeps everything before the first group, deletes the group, and carries on after its `)`. |
| Patterns.RemoveGroupsLeavesNone | scripts/populate.py:135 | After `re.sub(r"\((.*?)\)", "", s)` no group is left in the string. |
| Patterns.RemoveGroupsNoGroup | scripts/populate.py:135 | A string with no group is left as it is. |
| Patterns.BaseName | scripts/populate.py:135 | The name of a measure, and later a food-table column name, has no group and no `_` at either end, and is a subsequence of the header. Which name it is, BaseNameNoGroup and UnitHeader state. |
| Patterns.BaseNameNoGroup | scripts/populate.py:135 | A header without a group only loses its outer underscores. |
| Patterns.UnitHeader | scripts/populate.py:131-136 | A header `n(u)`, with no `(` in `n`, has the name `n` without its outer underscores and the unit `u`. |
| Patterns.UnderscoredUnitHeader | scripts/populate.py:131-136 | A header `name_(u)`, with a plain name, has the name `name` and the unit `u`. |
| Patterns.EnergyHeaderExample | scripts/populate.py:131-136 | `energie_kilojoules_(kj)` has the name `energie_kilojoules` and the unit `kj`. |
| Patterns.DoubleGroupRemoved | scripts/populate.py:104-105 | `name w1(a) w2(b)`, with any whitespace `w1` and `w2` (none included), becomes `name w2(b)`. The first group goes, together with all the whitespace in front of it. |
| Patterns.DoubleGroupExample | scripts/populate.py:104-105 | `"X (a) (b)"` becomes `"X (b)"`. |
| Patterns.DoubleGroupNoSpaceExample | scripts/populate.py:104-105 | `"X(a)(b)"` becomes `"X(b)"`. |
| Patterns.DoubleGroupWideSpaceExample | scripts/populate.py:104-105 | `"X  (a)  (b)"` becomes `"X  (b)"`. |
| Patterns.StripDoubleGroupsNoParen | scripts/populate.py:104-105 | A name without `(` is not changed. |
| Sheets.FirstOccurrencesSpec | scripts/populate.py:98 | A row is kept exactly when no identical row comes before it, and the kept positions are in order. |
| Sheets.DedupRowsSpec | scripts/populate.py:98 | `drop_duplicates` keeps the columns and their names. The rows it leaves are the input rows with every repeat after its first copy deleted, in order. |
| Sheets.DropColumnsSpec | scripts/populate.py:99-102 | Dropping removes exactly the columns whose name is rejected. The others are kept whole and in order, and the names left are the input names minus the rejected ones. |
| Sheets.DropColumnsTwice | scripts/populate.py:99-102 | Two drops in a row are one drop by either test. |
| Sheets.MissingHeaders | scripts/populate.py:99 | The names `drop` reports as missing are exactly the requested names that are not columns. |
| Cleaning.FourDrops | scripts/populate.py:99-102 | The four drop steps together drop exactly the named columns and the columns with the three prefixes. |
| Cleaning.NormaliseHeader | scripts/populate.py:107-114 | A normalised column name has no comma, space or hyphen, and is lower-case. |
| Cleaning.NormaliseHeaderKeepsNormal | scripts/populate.py:107-114 | A name that is already normal is unchanged. |
| Cleaning.RemoveAccents | scripts/populate.py:93-95 | `remove_accents` returns ASCII text made of the ASCII characters of the normalised input, in their order. |
| Cleaning.RemoveAccentsKeepsAscii | scripts/populate.py:93-95 | ASCII text that NFKD leaves alone comes back unchanged. |
| Cleaning.CleanDataSpec | scripts/populate.py:97-118 | `clean_data` fails, reporting the missing names, exactly when one of the four named columns is missing. Otherwise it keeps the deduplicated rows, and its columns are the surviving columns, in order, with their cells untouched and their names cleaned. |
| Cleaning.KeptColumnsSpec | scripts/populate.py:99-102 | The surviving names are the input names minus the dropped ones, in order. No surviving column matches a drop rule, and every column that matches none survives. |
| Cleaning.CleanHeadersAscii | scripts/populate.py:116 | Every column name `clean_data` produces is ASCII. |
| Cleaning.CleanHeaderNormal | scripts/populate.py:105-116 | When NFKD leaves ASCII alone and the normalised name is ASCII, the final name is the normalised one: no comma, space or hyphen, and lower-case. |
| Measures.ConversionFactorsKeys | scripts/populate.py:11 | The lookup `CONVERSION_FACTORS[unit]` succeeds exactly for g, mg, kj, µg and kcal. |
| Measures.ConversionFactorValues | scripts/populate.py:11 | The five factors are 1, 0.001, 1000, 0.000001 and 1000. |
| Measures.CreateMeasuresTable | scripts/populate.py:126-143 | The loop returns what `MeasuresTable` prescribes, including the failure on the first unknown unit. |
| Measures.MeasureRowsSpec | scripts/populate.py:130-139 | The loop succeeds exactly when no column has an unknown unit. It then gives one row per column with a unit, in column order, with that unit, the name stripped of its groups and outer `_`, and the factor for the unit. |
| Measures.MeasuresOfUnitHeaders | scripts/populate.py:130-139 | Headers `name_(unit)` with plain names and known units give one row per header, in order, with exactly that name, that unit and its factor. |
| Measures.MeasureRowsFailure | scripts/populate.py:137 | A failing derivation reports the unit of the first column whose unit is unknown. |
| Measures.FailureIsFinal | scripts/populate.py:137 | Once a prefix of the columns fails, the whole derivation fails with the same error. |
| Measures.MeasureRowsSkip | scripts/populate.py:132 | A column name without a group adds no row. |
| Measures.MeasuresTableEmpty | scripts/populate.py:141 | The table fails with `NoMeasures` exactly when no column name has a group. |
| Measures.UnitColumnsSpec | scripts/populate.py:130-132 | The rows come from exactly the columns with a group. |
| Measures.UnitColumnsOrder | scripts/populate.py:130-132 | Those columns are taken in column order. A column with a group is taken as often as it occurs, and any other column never. |
| Measures.CleanedHeadersNoMicrograms | scripts/populate.py:11 | Measures built from ASCII column names never have the unit "µg". |
| FoodTable.CreateFoodTable | scripts/populate.py:145-203 | Returns `FoodTable` of the input frame, with the script's column lists. It leaves the frame updated in place as `FrameAfter` prescribes, and keeps it well-formed. A successful result is the updated frame, so it is well-formed too. |
| FoodTable.CleanFoodFrame | scripts/populate.py:187-203 | The function body, including its loop over the nutrient columns, proved against `FoodTableOf` and `FrameAfter` for any list of nutrient columns. |
| FoodTable.ConvertColumnsSpec | scripts/populate.py:198-199 | After the loop, each listed column holds its converted cells and every other column is as it was. Converting a column twice is converting it once. |
| FoodTable.CleanCellSpec | scripts/populate.py:192-199 | A cleaned nutrient cell is text without `<`. Placeholders ("tr.", "n.i.", "") and missing cells read as the text of 0, numbers as their text, and other text as itself minus `<`. |
| FoodTable.StripBoundTwice | scripts/populate.py:199 | Deleting `<` again changes nothing. |
| FoodTable.FrameAfterSpec | scripts/populate.py:187-199 | The frame is left with every column renamed by BaseName. When no nutrient column is missing, each nutrient column holds its cleaned cells; every other column keeps its cells. |
| FoodTable.FrameAfterWellFormed | scripts/populate.py:187-199 | The updates keep every column's length. |
| FoodTable.FoodTableFailure | scripts/populate.py:192-201 | The function fails exactly when a key of `dtype_food` is not a stripped column name. If nutrient columns are missing it reports all of them; otherwise it reports the first missing descriptive column. |
| FoodTable.FoodTableSpec | scripts/populate.py:187-203 | On success the result has the input's rows and columns, in order, each renamed by BaseName. The nutrient columns hold the cleaned cells and the other columns are untouched. |
| FoodTable.FoodHeadersStripped | scripts/populate.py:186-189 | The result has one column per input column. Each column name has no group and no `_` at either end, and is a subsequence of the input name. An input name without a group only loses its outer underscores. |
| FoodTable.FoodHeaderOfUnitColumn | scripts/populate.py:186-189 | A column named `name_(unit)`, with a plain name, is renamed `name`. |
| FoodTable.NutrientCellsClean | scripts/populate.py:192-199 | Every cell of a nutrient column of the result is text without `<`, and a placeholder or missing input cell reads as the text of 0. |
| Api.ReadTopFoods | app/main.py:17-46 | Returns `TopFoods` and the call trace `TopFoodsCalls` for the mapping that map_categories returns. |
| Api.TopFoodsCallOrder | app/main.py:36-44 | Validation is the first call, and a failed validation makes no other call. Otherwise the mapping call comes next, then one ranking per mapping entry, in order, each given exactly that entry's category list. |
| Api.TopFoodsForKnownCategories | app/main.py:23-44 | With map_categories as get_category_mapping over the known names, the response has one entry per keyword, in the order of the ten keywords, and each ranking receives exactly the names matching its keyword. |
| Api.TopFoodKeywordsDistinct | app/main.py:23-34 | The ten keywords are distinct. |
| Api.ReadFoodByPhase | app/main.py:72-86 | Returns `FoodByPhaseIn` and the trace `FoodByPhaseCallsIn` for the static phases table. |
| Api.FoodByPhaseLoop | app/main.py:76-86 | The lookup and the loop, proved against `FoodByPhaseIn` for any phase table. |
| Api.AccumulateTopFoods | app/main.py:79-84 | The loop leaves the dict built by the assignments `top_food[name] = ...` in order, and makes one ranking call per nutrient. |
| Api.PhaseResponseSpec | app/main.py:79-84 | The dict's keys are the phase's nutrient names, in first-occurrence order and each once. A name is a key exactly when it occurs, and it holds the answer to the query of its last occurrence. |
| Api.FoodByPhaseSpec | app/main.py:76-86 | The phase is validated first. A valid phase that is in the table answers with a one-element list holding the phase's dict, after one ranking call per nutrient, in order, with only the name and the percentage. Any other phase fails after the validation call alone. |
| Api.PhasesKeys | app/main.py:49-69 | The table has the four phases, in order. |
| Api.LutealKeys | app/main.py:68 | The luteal phase succeeds, and its dict has exactly the keys "vitamine_b" and "magnesium". |
| Api.OvulatoryKeys | app/main.py:61-67 | The ovulatory phase succeeds after six calls, one validation and five rankings, but its dict has four keys, in the order zinc, fibres_alimentaires, vitamine_c, selenium. Zinc keeps its first position and holds the answer to the fifth query, not the first. |

## Left out

- The following are I/O and configuration: downloading and parsing the spreadsheet (`fetch_data`), `to_sql`, `create_engine`, the connection string and `create_tables`.
- FastAPI routing, dependency injection and the session are not modelled; `session` is absent from every signature.
- The default arguments `percentage: float = 0.20` of `read_top_foods` (app/main.py:20) and `percentage: float = 0.1` of `read_food_by_phase` (app/main.py:74) are not modelled: the percentage is always passed explicitly, because filling in defaults is done by FastAPI.
- `validate_params`, `validate_phase`, `map_categories`, `get_top_foods_by_category` and `get_top_food_by_abs_nutrient` are not part of this model. They are uninterpreted function parameters, and the ranking formula is not modelled.
- NFKD normalisation is not modelled because it is a foreign Unicode call. Only the ASCII filter of `remove_accents` is modelled, and NFKD is a parameter.
- Full Unicode `str.lower` is not modelled. Lower-casing covers ASCII, Latin-1, Œ and Ÿ, which are the characters of the keywords and the test names.
- pandas dtypes and `astype` parsing are left out: `str(x)` of a number is a parameter, and `astype(dtype_food)` is modelled only for its missing-key error, not for converting text to int or float, nor for the errors that conversion can raise.
- Floating point is left out: the conversion factors and cell values are exact `real`s.
- Duplicate column labels are left out. pandas selects every column with a repeated label; the model reads the columns one by one and treats each label on its own.
- The regular expressions are modelled for the characters they meet. The `\s` class is Python's `str.isspace` set.
- Patterns.FirstGroup: its own contract gives only the shape of the text it returns; which text it is, is stated by FirstGroupSpec, FirstGroupAt and GroupAfterPlainPrefix.
- Patterns.BaseName: its own contract gives only the shape of the name; which name it is, is stated by BaseNameNoGroup, UnitHeader and UnderscoredUnitHeader, for headers without a group and for headers ending in one group. Headers with a group in the middle are covered only through RemoveGroupsAt.
- `Cleaning.CleanHeaderNormal`: the no-space and lower-case promise is proved only when NFKD leaves ASCII alone and the normalised name is ASCII. NFKD can turn a non-ASCII space into `' '`, so after `remove_accents` a header may contain a space again.
- `app/models.py`, `app/model.py` and `app/db.py` are not part of this model: they are an ORM schema, a broken draft and the database session.
