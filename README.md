# Pandas student-records ETL, modelled in Dafny

This project models the record-level core of two ETL pipelines over a school's
student records: `flows/etl_simple.py` and `flows/etl_lab2_prefect.py`. Each
pipeline reads three sources: a roster of students (`alumnos`), their grades
(`calificaciones`) and their enrolments (`matriculas`). It cleans and
reconciles them, merges them into one fact table, and appends an audit row
to `etl_monitor`.

Tables are modelled the way pandas treats them here:
- A table is a list of column names plus a list of rows.
- A row maps column names to a nullable cell (`Null`, an exact number, or a text).
- pandas' NaN and None are both `Null`.
- Integers and floats are one numeric type, compared by value, as pandas does in merges and deduplication.
- Exceptions (KeyError, IndexError, TypeError, ValueError) are `Failure` values carrying their `str(e)`.

Files and modules:
- `tables.dfy` (`Tables`): values, rows, tables, errors and their messages; column statistics (null counts, distinct non-null values); subsequences; `apply` that stops at the first exception.
- `text.dfy` (`TextOps`): `str.lower`, `str.strip`, the accent table and the address cleaning; `str()` of a cell; the number parser behind `pd.to_numeric`; `s[:n]`.
- `relational.dfy` (`Relational`): the null-key filter, the pandas left merge (row order, null keys matching null keys, `_x`/`_y` suffixes), and the projection onto a preferred column list.
- `etl_simple.dfy` (`EtlSimple`): the `transform`, `log_run` and `main` of the simple pipeline.
- `etl_lab2_prefect.dfy` (`EtlPrefect`): the `transform`, `log_run` and `etl_flow` of the Prefect pipeline.

Collaborators the model cannot see are inputs: the result of file extraction, the outcome of the SQLite load, and the date-seeded random draw that makes `etl_simple`'s integrity check fail.

A few behaviours of the code are easy to misread. The model follows the code:
- A grades or enrolment table that has neither the key nor an alias makes the run fail (KeyError on `df[key]`). Its rows are not silently discarded.
- The mean score is NaN (`None` here) when the score column exists but every score is null. It is not 0.
- `etl_simple` always records `registros_descartados = 0`, although its comment speaks of rows with a null id.
- `etl_simple` records a successful run with the message "ETL ejecutado exitosamente", not an empty message.
- Only the enrolment columns `id_alumno` and `id_matricula` are coerced to numbers, and this happens before alias renaming.
- Scores are rounded first and clamped second. The out-of-range count looks at the unrounded score.

## Model

| member | source | states |
|---|---|---|
| EtlSimple.KeepFirst | flows/etl_simple.py:105-107 | `drop_duplicates` never yields more rows than the roster had |
| EtlSimple.KeepFirstKeys | flows/etl_simple.py:105-107 | deduplication keeps every key, each key once; the kept count is the number of distinct keys, so `duplicados_eliminados` is rows minus distinct keys |
| EtlSimple.KeepFirstOrder | flows/etl_simple.py:106 | the kept rows are a subsequence of the roster (relative order preserved) |
| EtlSimple.KeepFirstFirsts | flows/etl_simple.py:106 | every kept row is the first roster row carrying its key (`keep='first'`) |
| EtlSimple.KeepFirstOfDistinct | flows/etl_simple.py:106 | a roster whose keys are already distinct is returned unchanged |
| EtlSimple.KeepFirstIdempotent | flows/etl_simple.py:106 | deduplicating twice equals deduplicating once |
| EtlSimple.DropDuplicates | flows/etl_simple.py:106 | the seen-set loop returns the roster's columns with exactly the first-occurrence rows; KeyError naming the subset when `id_alumno` is absent |
| EtlSimple.DuplicateExample | flows/etl_simple.py:105-107 | two rows with the same id: the first stays and one duplicate is removed |
| EtlSimple.Email | flows/etl_simple.py:114-118 | the synthesised address always ends in `@colegio.edu` |
| EtlSimple.GenerarCorreo | flows/etl_simple.py:112-119 | a present (non-null, non-empty) address is returned unchanged; a missing one becomes clean(nombre).clean(apellido)@colegio.edu; a missing name column is a KeyError only when synthesis is needed, on `nombre` when that column is missing and on `apellido` otherwise; the result is never null |
| EtlSimple.EmailAtSigns | flows/etl_simple.py:114-118 | the address has exactly one `@` more than the two names together (exactly one when the names have none) |
| EtlSimple.EmailExample | flows/etl_simple.py:114-118 | "José", "Pérez" gives "jose.perez@colegio.edu" |
| EtlSimple.FillCorreos | flows/etl_simple.py:121-122 | the apply loop equals the row-wise synthesis, stops at the first KeyError, and fails when the `correo` column is absent |
| EtlSimple.FillCorreosFacts | flows/etl_simple.py:121-124 | after synthesis every row has an address that is neither null nor empty, only `correo` changes, present addresses are kept, missing ones are synthesised from the names, and `correos_generados` equals the null addresses before (empty strings are rewritten but not counted) |
| EtlSimple.FillCorreosIdempotent | flows/etl_simple.py:111-122 | filling the addresses of an already filled roster changes nothing |
| EtlSimple.FillRowFixed | flows/etl_simple.py:113-119 | a row whose address is present is returned as it is |
| EtlSimple.Round1 | flows/etl_simple.py:138 | `round(x, 1)` lands on a tenth within 0.05 of x, keeps [0,5] and the side of the range |
| EtlSimple.Clamp | flows/etl_simple.py:138 | `max(0, min(5, r))` lies in [0,5] and is the identity inside it |
| EtlSimple.NormalizeNota | flows/etl_simple.py:132-138 | null stays null (and only null gives null); a number ends in [0,5], equals round1 inside the range, 0 below, 5 above; a text score is the TypeError of `nota < 0` |
| EtlSimple.RoundClampCommute | flows/etl_simple.py:138 | rounding then clamping gives the same score as clamping then rounding |
| EtlSimple.CountUsesUnroundedScore | flows/etl_simple.py:136-138 | 5.04 is counted out of range while 4.96 is not, though both are stored as 5.0 |
| EtlSimple.ScoreExample | flows/etl_simple.py:136-138 | 7.8 is stored as 5.0 and counted |
| EtlSimple.CountOutOfRange | flows/etl_simple.py:130-137 | the out-of-range count never exceeds the number of grade rows |
| EtlSimple.NormalizeScores | flows/etl_simple.py:129-140 | the apply loop with the `nonlocal` counter equals the row-wise normalisation paired with the number of unrounded scores outside [0,5]; missing `nota` is a KeyError |
| EtlSimple.NormalizeScoresFacts | flows/etl_simple.py:140 | normalisation keeps the columns and every grade row, changes only `nota`, and leaves every score null or in [0,5] |
| EtlSimple.MeanScore | flows/etl_simple.py:187 | 0 when the fact table has no `nota` column, no mean (NaN) exactly when it has no score |
| EtlSimple.WithYear | flows/etl_simple.py:168-169 | the rows with an enrolment year are rows of the fact table |
| EtlSimple.CleanFailures | flows/etl_simple.py:105-140 | the cleaning specification raises the KeyError of the subset when the roster has no `id_alumno` and the KeyError of `correo` when it has no address column; it succeeds only when the roster has both and the grades have `nota` |
| EtlSimple.CleanedFacts | flows/etl_simple.py:105-140 | after cleaning the roster keeps its columns, has one row per distinct id (as many rows as `KeepFirst` keeps); the grades keep their columns and row count, and the out-of-range count is that of the raw scores |
| EtlSimple.CleanRoster | flows/etl_simple.py:105-124 | deduplication then address synthesis, with the null addresses counted before and after, equals the roster half of the cleaning specification, including the KeyError of each step |
| EtlSimple.CleanTables | flows/etl_simple.py:101-138 | the cleaning steps run in order equal the cleaning specification: deduplicated roster with synthesised addresses and their count, normalised grades with the out-of-range count, or the first stage's exception |
| EtlSimple.FinishSpec | flows/etl_simple.py:167-213 | a KeyError exactly when the joined table has no `anio`; otherwise the fact table has the preferred columns present, one row per joined row, `registros_validos` is its row count, `registros_descartados` is 0 and `correos_generados` is the cleaning's count |
| EtlSimple.TransformSpec | flows/etl_simple.py:93-215 | a cleaning exception is the transform's exception; after a clean cleaning the failed draw raises the validation error; a successful transform was not drawn to fail and reports `registros_validos` as its row count, 0 discarded and the cleaning's address count |
| EtlSimple.Transform | flows/etl_simple.py:93-215 | the step-by-step transform equals the specification: dedup, synthesis, normalisation, the injected failure, grades ⟕ roster ⟕ enrolments, the `anio` check, projection and metrics, with each stage's exception |
| EtlSimple.TransformMetricsFacts | flows/etl_simple.py:168-213 | `registros_validos` is the fact-row count, `registros_descartados` is 0, `alumnos_con_matricula` ≤ `total_alumnos_unicos`, `correos_generados` counts the deduplicated roster's null addresses |
| EtlSimple.TransformColumns | flows/etl_simple.py:174-180 | the fact table's columns are exactly the preferred columns the joined table has, in preferred order, and it keeps every joined row |
| EtlSimple.ProjectKeepsKeys | flows/etl_simple.py:180-188 | the projection keeps the distinct ids, so `total_alumnos_unicos` can be taken before or after it |
| EtlSimple.GradeFirstRowCount | flows/etl_simple.py:160-164 | with the deduplicated roster the first merge has one row per grade; the fact table has as many rows as the enrolment merge gives those rows, and exactly one per grade when enrolment ids do not repeat |
| EtlSimple.GradeFirstRowsInOrder | flows/etl_simple.py:160 | with no clashing column names the first merge keeps grade order: its row i carries the values of grade row i |
| EtlSimple.LogRun | flows/etl_simple.py:257-295 | the stored message is the prefix `mensaje[:500]`, of length at most 500, and the message itself when short |
| EtlSimple.RunPipeline | flows/etl_simple.py:319-407 | `main` returns True exactly when extraction, transform and load all succeed; the row's status is OK then and FAIL otherwise, and a failed run records 0 rows read and valid |
| EtlSimple.FailedRunRow | flows/etl_simple.py:389-403 | a failed run's row has every count 0, mean 0.0, status FAIL and `("Error: " + str(e))[:500]` |
| EtlSimple.RunFailureRecorded | flows/etl_simple.py:326-407 | stage by stage: an extraction exception, else a transform exception, else a load exception is the one whose FAIL row is written; with none of them the run succeeds |
| EtlSimple.InjectedFailureRecorded | flows/etl_simple.py:145-151 | when the draw fails the integrity check after a clean cleaning phase, the run records the validation message |
| EtlSimple.SucceededRunRow | flows/etl_simple.py:319-347 | main returns True exactly when transform and load succeed; the OK row is `log_run` of the three source row counts summed, the transform's metrics and the success message, so each of its seven counts and the mean is the transform's |
| EtlSimple.SucceededRunMetrics | flows/etl_simple.py:199-211 | in the OK row `registros_validos` is the fact table's row count, `registros_descartados` is 0, `correos_generados` is the deduplicated roster's null addresses, and `alumnos_con_matricula` ≤ `total_alumnos_unicos` |
| Tables.Message | flows/etl_simple.py:401 | `str(e)` is non-empty for every exception the pipelines raise themselves |
| Tables.KeySetMembers | flows/etl_simple.py:106 | a value is a key of the rows exactly when some row carries it |
| Tables.CountNull | flows/etl_simple.py:121-123 | `isna().sum()` is at most the number of rows |
| Tables.MapAll | flows/etl_simple.py:122-140 | `apply` on success gives one result per row, in order; on failure some row raised that exception |
| Tables.MapAllIdentity | flows/etl_simple.py:121-122 | an `apply` whose function returns every row unchanged returns the rows unchanged |
| Tables.MapAllPrefixFailure | flows/etl_simple.py:122-140 | once a prefix raises, the whole apply raises the same exception |
| TextOps.LowerChar | flows/etl_simple.py:114-115 | an upper-case ASCII or Latin-1 letter is lowered by 0x20, every other character is kept |
| TextOps.Lower | flows/etl_simple.py:114-115 | `str.lower` keeps the length and lowers each character |
| TextOps.StripLeft | flows/etl_simple.py:114-115 | the left-stripped text does not start with whitespace and is no longer than the input |
| TextOps.StripLeftRemovesSpaces | flows/etl_simple.py:114-115 | the leading part `str.strip` removes is all whitespace |
| TextOps.StripRight | flows/etl_simple.py:114-115 | the right-stripped text does not end with whitespace and is no longer than the input |
| TextOps.StripRightRemovesSpaces | flows/etl_simple.py:114-115 | the trailing part `str.strip` removes is all whitespace |
| TextOps.Strip | flows/etl_simple.py:114-115 | the stripped name neither starts nor ends with whitespace |
| TextOps.RemoveSpaces | flows/etl_simple.py:116-117 | `replace(' ', '')` leaves no space |
| TextOps.RemoveSpacesOrder | flows/etl_simple.py:116-117 | the result is a subsequence of the input shorter exactly by its number of spaces: the input with its spaces deleted and every other character kept in order |
| TextOps.Deaccent | flows/etl_simple.py:116-117 | á, é, í, ó and ú become a, e, i, o and u; no acute vowel is left and every other character is kept |
| TextOps.DeaccentAll | flows/etl_simple.py:116-117 | the replacements act character by character and keep the length |
| TextOps.Clean | flows/etl_simple.py:114-117 | a cleaned name has no space and no acute vowel |
| TextOps.CleanKeepsPlainChar | flows/etl_simple.py:114-117 | cleaning neither adds nor removes any ASCII character that is not a letter or space (such as `@` or `.`) |
| TextOps.CleanNoSpaces | flows/etl_simple.py:114-117 | a name without whitespace is only lowered and deaccented |
| TextOps.ToText | flows/etl_simple.py:114-115 | `str()` of a null cell is "nan", of a text cell the text itself, and of an integral number a text that parses back to it |
| TextOps.ParseNumber | flows/etl_lab2_prefect.py:64 | a text that parses holds at least one digit, and without a leading minus sign it denotes a non-negative number |
| TextOps.Take | flows/etl_simple.py:295 | `s[:n]` is a prefix of s of length min(n, len s) |
| TextOps.TakeNested | flows/etl_lab2_prefect.py:151-160 | the 200-character summary message is the prefix of the 500-character stored one |
| TextOps.ParseShowInt | flows/etl_lab2_prefect.py:64 | the decimal text of an integer parses back to that integer |
| Relational.NonNullRows | flows/etl_lab2_prefect.py:81-83 | the filter keeps exactly |rows| minus the null-key count, only rows with a key |
| Relational.NonNullRowsExact | flows/etl_lab2_prefect.py:81-83 | the filtered table is a subsequence of the original with every non-null-key row kept |
| Relational.FilterNullKeys | flows/etl_lab2_prefect.py:81-83 | `df[df[key].notna()]` is a KeyError exactly when the key column is absent, otherwise drops exactly the null-key rows and keeps the columns |
| Relational.Matches | flows/etl_lab2_prefect.py:88 | the matches are right rows whose key equals the left key (null matching null), no more than there are right rows |
| Relational.MatchesComplete | flows/etl_lab2_prefect.py:88 | every right row whose key equals the left key is among the matches |
| Relational.JoinColumns | flows/etl_lab2_prefect.py:88 | the merged table has one column per left column and one per right non-key column |
| Relational.JoinRowsAppend | flows/etl_lab2_prefect.py:88 | the merge works left row by left row: merging a concatenation gives the concatenated outputs, so left order is kept |
| Relational.LeftJoin | flows/etl_lab2_prefect.py:88 | a merge is a KeyError exactly when either side lacks the key; otherwise the left columns (suffixed `_x` on clash) then the right non-key columns (suffixed `_y`) |
| Relational.JoinRowCount | flows/etl_simple.py:160-164 | the row-count law: each left row yields its number of matches, or one row with no match |
| Relational.JoinOneContents | flows/etl_simple.py:160 | a left row's output block carries the left values, the k-th matching right row in the k-th output row, nulls when nothing matches |
| Relational.JoinOneToOne | flows/etl_simple.py:160 | when right keys are distinct, output row i carries left row i |
| Relational.DistinctRightKeepsCount | flows/etl_simple.py:164 | when right keys are distinct the merge keeps the left row count |
| Relational.JoinRowsCover | flows/etl_lab2_prefect.py:88 | every left row appears in the output, null-extended when nothing matches |
| Relational.JoinRowsCoverMembers | flows/etl_lab2_prefect.py:88 | every row of the left side, in particular every valid roster row and every row of the first merge, is carried by some row of the merge under its left names (`c_x` for a non-key column the right side shares) |
| Relational.PresentExact | flows/etl_simple.py:179 | the final columns are the preferred ones present, in preferred order |
| Relational.Restrict | flows/etl_simple.py:179-180 | a narrowed row has exactly the chosen columns, each with the original cell |
| Relational.Project | flows/etl_simple.py:179-180 | projection keeps every row and every kept cell |
| EtlPrefect.CoerceNumeric | flows/etl_lab2_prefect.py:64 | `to_numeric(errors="coerce")` never yields a text: numbers and nulls stay, a numeric text is parsed, anything else is null |
| EtlPrefect.CoerceIdText | flows/etl_lab2_prefect.py:64 | the XML text of an integer id is coerced to that id |
| EtlPrefect.CoerceTwice | flows/etl_lab2_prefect.py:64 | coercion is idempotent |
| EtlPrefect.CoerceColumns | flows/etl_lab2_prefect.py:62-64 | coercing the id columns keeps the enrolments' columns and row count |
| EtlPrefect.CoerceIds | flows/etl_lab2_prefect.py:62-64 | the `for col` loop equals coercing each present id column in turn |
| EtlPrefect.CoerceColumnsFacts | flows/etl_lab2_prefect.py:62-64 | every present id column holds only coerced values (no text), rows keep their columns, every other cell is unchanged |
| EtlPrefect.ChooseKey | flows/etl_lab2_prefect.py:67 | the key is `id_alumno` when the roster has it, else the roster's first column; IndexError exactly when the roster has no column |
| EtlPrefect.FirstAlias | flows/etl_lab2_prefect.py:71-72 | the alias found is present in the table; none is found exactly when no alias is present |
| EtlPrefect.FirstAliasIsFirst | flows/etl_lab2_prefect.py:71-74 | the alias found is the first one in the ordered list that the table has |
| EtlPrefect.Rename | flows/etl_lab2_prefect.py:73 | `rename(columns={c: key})` renames that column in place and moves its cells to the key |
| EtlPrefect.AliasResolved | flows/etl_lab2_prefect.py:70-79 | the alias step keeps the numbers of columns and rows; it changes nothing when the key is present or no alias is; the key is present afterwards only if it or an alias was |
| EtlPrefect.ResolveAlias | flows/etl_lab2_prefect.py:70-79 | the alias loop with `break` equals renaming the first present alias, when the key is missing |
| EtlPrefect.AliasResolvedColumns | flows/etl_lab2_prefect.py:70-79 | a table with the key, or with no alias, is unchanged; otherwise only the first alias is renamed to the key, at its position; the key is present afterwards exactly when it or an alias was |
| EtlPrefect.AliasResolvedRows | flows/etl_lab2_prefect.py:73 | after renaming, the key carries the alias's values and every other cell is kept |
| EtlPrefect.KeySpec | flows/etl_lab2_prefect.py:62-79 | the key step fails, with the IndexError, exactly when the roster has no column; otherwise the key is a roster column, the roster is untouched, grades and enrolments keep their row counts, and grades that already have the key are unchanged |
| EtlPrefect.FilterSpec | flows/etl_lab2_prefect.py:81-83 | the filters raise the KeyError of the key exactly when one of the three tables lacks it; otherwise each keeps its columns and loses exactly its null-key rows |
| EtlPrefect.MergeSpec | flows/etl_lab2_prefect.py:88 | the merge chain fails exactly when one of the three tables lacks the key |
| EtlPrefect.TransformSpec | flows/etl_lab2_prefect.py:52-99 | the only exceptions are the IndexError of a roster without columns and the KeyError of the key; `valid_rows` is the fact table's row count |
| EtlPrefect.Transform | flows/etl_lab2_prefect.py:52-99 | the step-by-step transform equals the specification: coercion, key choice, alias resolution, null-key filters, discarded count, roster ⟕ grades ⟕ enrolments |
| EtlPrefect.TransformFailures | flows/etl_lab2_prefect.py:67-88 | the transform fails exactly when the roster has no column, or grades or enrolments have neither the key nor an alias |
| EtlPrefect.DiscardedAccounting | flows/etl_lab2_prefect.py:81-85 | `discarded` is the sum of the three null-key counts, it is at most the rows read, and rows read = discarded + the three filtered row counts |
| EtlPrefect.RosterRowsKept | flows/etl_lab2_prefect.py:88-95 | `valid_rows` is the fact-row count and at least the number of valid roster rows; exactly that number when grade and enrolment keys do not repeat |
| EtlPrefect.FilteredKeysDistinct | flows/etl_lab2_prefect.py:81-83 | the null-key filter keeps distinct keys distinct |
| EtlPrefect.Get | flows/etl_lab2_prefect.py:124-128 | a missing metric reads as 0 |
| EtlPrefect.LogRun | flows/etl_lab2_prefect.py:121-161 | row and summary carry the same counts; the stored message is `mensaje[:500]`, the summary's `mensaje[:200]`, both prefixes of the original and the second of the first |
| EtlPrefect.EtlFlow | flows/etl_lab2_prefect.py:165-182 | the flow succeeds exactly when extraction, transform and load do, and it re-raises an exception exactly when it does not succeed; row and summary say OK then and FAIL otherwise, and a failed run records zero counts |
| EtlPrefect.FailedFlowRow | flows/etl_lab2_prefect.py:176-180 | the failed flow re-raises `e`; with empty metric dictionaries the FAIL row has all counts 0, duration "-", and `str(e)` cut to 500 (200 in the summary) |
| EtlPrefect.SucceededFlowRow | flows/etl_lab2_prefect.py:165-175 | the flow succeeds exactly when transform and load do; the OK row and summary are `log_run` of the extract and transform metrics with an empty message: the three source row counts summed, the fact-row count, and a discarded count not above the rows read |
| EtlPrefect.FlowFailureRecorded | flows/etl_lab2_prefect.py:166-182 | stage by stage: an extraction exception, else a transform exception, else a load exception is the one whose FAIL row is written and the one re-raised to the caller; with none of them the flow succeeds and raises nothing |

## Left out

- File reading (CSV, JSON, XML through ElementTree), the raw copies, the CSV and parquet outputs, SQLite and logging are I/O. The extraction result and the load outcome are parameters.
- The date-seeded random draw of `etl_simple` is a boolean parameter.
- Timestamps and durations come from the clock and are not modelled. `run_ts` and `duracion_s` are absent from `EtlSimple.MonitorRow`. `EtlPrefect.MonitorRow` keeps the constant "-".
- Prefect's orchestration is not modelled: `@task`, `@flow`, and whether `log_run.submit` actually runs before the flow re-raises. In the model the FAIL row is always written.
- `log_run` swallows its own database errors in `etl_simple`. The run's result does not depend on them. In the Prefect flow, a failure of the OK `log_run` would be caught and logged as FAIL, and that path is not modelled.
- The success summaries that `main` and `etl_flow` print are log output.
- Round1: Python's `round` acts on binary floats (2.675 rounds to 2.67). The model rounds exact values half-to-even.
- MeanScore: the mean is an exact real rather than a float. The mean of a text column is not modelled, because normalisation leaves none.
- TextOps.LowerChar lowers ASCII and Latin-1 only. Other Unicode case mappings are not modelled.
- TextOps.ToText shows integral numbers without `.0`. pandas prints float-typed names as `3.0`, and the number dtype of a column is not modelled.
- TextOps.ToText shows a non-integral number with at most six decimals, so 0.1234567 becomes "0.123456" where Python prints "0.1234567". Python's shortest round-trip digits and its scientific notation (`1e-07`) are not modelled.
- TextOps.ParseNumber accepts an optional sign, digits and an optional decimal part. Exponents, `inf`, `nan`, surrounding whitespace and underscores, which `pd.to_numeric` also accepts, are not modelled.
- Column dtypes are not modelled. A pandas merge of an object key with a numeric key raises a ValueError, and the model joins by value instead. In `etl_simple` this matters whenever the enrolment XML has rows. Its ids are the text of the XML elements (flows/etl_simple.py:61) and are never coerced, so the second merge (flows/etl_simple.py:164) meets a text key against the numeric `id_alumno`. There pandas raises a ValueError and the run fails. The model instead finds no match and the run succeeds with null enrolment columns.
- DataFrames with duplicate column names, which can arise from suffixes that clash, are outside the model. The lemmas about merge contents require that no names clash.
- `apply` on a roster without rows: pandas first calls `generar_correo` once on an all-null row indexed by the columns. When `nombre` and `apellido` are both columns, that call returns a string, pandas returns an empty Series, and the result is the empty roster, as in the model. When one of them is missing, that call raises, pandas returns a copy of the frame, and the assignment at flows/etl_simple.py:122 raises a ValueError. The model succeeds there with the empty roster.
