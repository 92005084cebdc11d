# Outbound dashboard: normalizer and classifier, modelled in Dafny

The dashboard reads a feed of warehouse outbound line items, one row per
item. Each row carries a job number, an order number, a customer, dates,
quantities and two status texts: packing and loading.
Two pieces of logic sit between the feed and the screen:

- **The normalizer** (`clean_data`) cleans the table in place, one step after another:
  - header names: whitespace runs become one space, and the ends are trimmed;
  - the three date columns: parsed, or missing when a cell does not parse;
  - the seven numeric columns: `,` becomes `.`, the text is lower-cased, `kg` and `m3` are removed, and the text is parsed with a default of 0; a numeric column that is missing is created filled with 0;
  - the two status columns: upper-cased and stripped, and the sentinels `NAN`, `NAT`, `NULL` and `0` become missing;
  - finally it adds a row-level `Job_Status` (`Overload`, `Complete` or `In Progress`), computed from the row's own two status texts.
- **The classifier** (inline in `app.py`) works on that table:
  - it narrows the table by date range, customer and job status;
  - it counts distinct jobs and orders, and how many jobs are done under the strict rule (every row loaded); that count gives the completion rate;
  - it splits the rows into five buckets: Green (loaded), Purple (overload), Blue (leftover rows of a job that has started loading), Yellow (not started, packed) and Red (not started, not packed);
  - it reports distinct job and order counts per bucket.

Files:

- `text.dfy` (module `Text`): string helpers for the whitespace regex, `str.strip`, ASCII `upper`/`lower`, `in` and `str.replace`.
- `wrappers.dfy` (module `Wrappers`): `Option`.
- `normalizer.dfy` (module `Normalizer`): `src/utils.py`.
  - The data frame is a class, `Frame`, whose fields (header names, one cell sequence per column, and the row count) are reassigned by methods that follow `clean_data` step by step. Each `for col in ...` loop is a `for` loop.
  - Each method is proved against pure specification functions on a `Table` value (`WithCleanHeaders`, `Fold`, `WithJobStatus`, `Cleaned`). The lemmas state what those functions guarantee.
  - `determine_status` is the pure function `DetermineStatus`.
- `classifier.dfy` (module `Classifier`): the core of `app.py`.
  - The filter chain, the buckets, the KPIs and `get_stats` are expressions in the source, so they are functions over `seq<LineItem>`.
  - Every filter or bucket is `Keep(t, p)`, the rows satisfying a mask, in order.
  - The split is also stated independently, row by row, as `BucketOf`. The lemmas prove that the two agree.

## Model

| member | source | states |
|---|---|---|
| Text.Collapse | src/utils.py:7 | the `\s+` → `' '` replacement never lengthens the text, is empty only for empty text, starts with whitespace exactly when the input does, leaves no two neighbouring whitespace characters and no whitespace other than a plain space, and keeps every non-whitespace character in order |
| Text.CollapseJoin | src/utils.py:7 | between text ending in non-whitespace and text starting with non-whitespace, a whitespace run of any length and kind becomes exactly one plain space, and the two sides collapse on their own |
| Text.Strip | src/utils.py:32 | `str.strip` leaves no whitespace at either end |
| Text.StripSlice | src/utils.py:32 | the stripped text is one contiguous slice of the input, and everything before and after that slice is whitespace |
| Text.StripLeadingSpace | src/utils.py:32 | a leading whitespace character makes no difference to `str.strip` |
| Text.StripTrailingSpace | src/utils.py:32 | a trailing whitespace character makes no difference to `str.strip` |
| Text.CleanHeader | src/utils.py:7 | a cleaned header has no whitespace at either end, no two neighbouring whitespace characters and no whitespace other than a plain space |
| Text.CleanHeaderJoin | src/utils.py:7 | a header made of two non-empty parts joined by any whitespace run cleans to the two cleaned parts joined by one plain space |
| Text.CleanHeaderShape | src/utils.py:7 | a cleaned header has no leading or trailing whitespace, no run of two whitespace characters, only plain spaces, and the same non-whitespace characters as the raw header |
| Text.CleanHeaderIdempotent | src/utils.py:7 | cleaning a cleaned header changes nothing |
| Text.Upper | src/utils.py:32 | `str.upper` keeps the length, leaves no lower-case ASCII letter, turns each lower-case letter into its upper-case form and keeps every other character |
| Text.Lower | src/utils.py:21 | `str.lower` keeps the length, leaves no upper-case ASCII letter, turns each upper-case letter into its lower-case form and keeps every other character |
| Text.ReplaceChar | src/utils.py:20 | `str.replace(a, b)` for single characters keeps the length, puts `b` wherever `a` was and keeps every other character |
| Text.RemoveAll | src/utils.py:21 | `str.replace(pat, '')` never lengthens the text and introduces no character |
| Text.RemoveAllFirst | src/utils.py:21 | the first occurrence of the pattern is removed and the scan resumes right after it, so occurrences are removed left to right and without overlap |
| Text.RemoveAllAbsent | src/utils.py:21 | text in which the pattern does not occur comes back unchanged |
| Text.RemovedCopies | src/utils.py:21 | what is removed is whole copies of the pattern: the input's characters are the result's plus some number of copies of the pattern's |
| Text.ContainsWitness | src/utils.py:40 | when `pat in s` holds, an index where `pat` occurs |
| Text.ContainsAt | src/utils.py:40 | conversely, `pat in s` holds wherever `pat` occurs; with `ContainsWitness`, `in` means "occurs at some index" |
| Normalizer.NumericText | src/utils.py:20-21 | numeric pre-processing leaves no `,` and no upper-case letter and never lengthens the text |
| Normalizer.NumericTextPlain | src/utils.py:20-21 | text without letters has only its commas turned into dots: the lower-casing and the `kg` and `m3` removal never touch it |
| Normalizer.NumericTextUnit | src/utils.py:20-21 | a `kg` or `m3` unit after a plain number is removed, leaving the number with its commas turned into dots |
| Normalizer.NegativeTextKept | src/utils.py:20-22 | `"-5"` reaches the parser unchanged, sign included |
| Normalizer.ThousandsSeparatorExample | src/utils.py:20-22 | `"1.234,50kg"` becomes `"1.234.50"` before parsing (two dots, so the parse fails and the cell becomes 0) |
| Normalizer.NumericCell | src/utils.py:20-22 | a cleaned numeric cell is always a number (`fillna(0)` leaves no missing value) |
| Normalizer.DateCell | src/utils.py:13 | a cleaned date cell is a day or missing, never text or a number |
| Normalizer.StatusCell | src/utils.py:32-33 | a cleaned status cell is text or missing, never a number or a date |
| Normalizer.CanonStatus | src/utils.py:32-33 | a kept status is never a sentinel, has no whitespace at either end and has no lower-case letter |
| Normalizer.CanonStatusKeeps | src/utils.py:32-33 | a status that is already upper-case, stripped and not a sentinel is kept exactly as it is |
| Normalizer.CanonStatusAnyCase | src/utils.py:32-33 | the canonical status does not depend on the case the text was written in |
| Normalizer.CanonStatusIgnoresTrailing | src/utils.py:32-33 | a trailing whitespace character never changes the canonical status |
| Normalizer.SentinelsAbsent | src/utils.py:33 | each of `NAN`, `NAT`, `NULL`, `0` and `nan` becomes missing |
| Normalizer.CanonStatusIdempotent | src/utils.py:32-33 | canonicalising a canonical status changes nothing |
| Normalizer.CanonStatusIgnoresPadding | src/utils.py:32-33 | a leading whitespace character never changes the canonical status |
| Normalizer.SentinelExample | src/utils.py:32-33 | `" Null"` is upper-cased and stripped to the sentinel `NULL` and becomes missing |
| Normalizer.IndexOf | src/utils.py:19 | the position of the first column of that name, or the column count when none has it |
| Normalizer.MapColumn | src/utils.py:13 | rewriting a present column converts each of its cells and leaves the other columns and the names unchanged |
| Normalizer.SetColumn | src/utils.py:26 | assigning a column overwrites it when present, or appends it; other columns are unchanged |
| Normalizer.WithCleanHeaders | src/utils.py:7 | every header is replaced by its cleaned form; the cells are untouched |
| Normalizer.FoldOther | src/utils.py:11-33 | a pass over a column list that does not name a column leaves that column, and whether it exists, as they were |
| Normalizer.FoldHit | src/utils.py:18-26 | a pass over distinct columns converts each cell of a named column once; the numeric pass creates a missing column filled with 0, the others leave it missing |
| Normalizer.WithJobStatus | src/utils.py:51 | `Job_Status` is added (or overwritten) with each row's label computed from that row's two status texts; other columns unchanged |
| Normalizer.NumericColumnsAfterCleaning | src/utils.py:16-26 | after `clean_data` each of the seven numeric names is a column holding only numbers: the cleaned cell where the column was present, 0 on every row where it was missing |
| Normalizer.DateColumnsAfterCleaning | src/utils.py:10-13 | a present date column holds the parsed day or a missing value for each of its cells; an absent one stays absent |
| Normalizer.StatusColumnsAfterCleaning | src/utils.py:29-33 | a present status column holds the canonical status of each raw cell; an absent one stays absent |
| Normalizer.JobStatusAfterCleaning | src/utils.py:36-51 | `Job_Status` exists after `clean_data`, and row i's label depends only on row i's own two raw status cells (`''` for a missing column, `None` for a missing value) |
| Normalizer.Cleaned | src/utils.py:5-53 | `clean_data` yields a well-formed table (one cell per row in every column) with the same row count |
| Normalizer.Frame.CleanHeaders | src/utils.py:7 | the frame's header names become their cleaned forms |
| Normalizer.Frame.RunPass | src/utils.py:11-33 | the loop over a column list leaves the frame equal to the pass folded over that list |
| Normalizer.Frame.AddJobStatus | src/utils.py:51 | the frame gains the `Job_Status` column |
| Normalizer.Frame.CleanData | src/utils.py:5-53 | the frame afterwards is `Cleaned` of the frame before, with the same row count |
| Normalizer.FinishedIsNotOverload | src/utils.py:40-44 | neither `COMPLETE` nor `LOADING DONE` contains `OVERLOAD` |
| Normalizer.DetermineStatus | src/utils.py:36-49 | Overload exactly when loading contains `OVERLOAD`, whatever the packing; Complete exactly when packing is finished and loading is finished; In Progress exactly in every other case |
| Normalizer.AbsentNeverComplete | src/utils.py:37-47 | a status read as `None` (missing value) or `''` (missing column) never makes a row Complete |
| Normalizer.LabelInjective | src/utils.py:41-49 | the three labels are distinct, so a label names one status |
| Classifier.Keep | app.py:102-106 | a mask selection is an order-preserving subsequence whose rows satisfy the mask, holding every satisfying row exactly as often as the table does |
| Classifier.KeepIdempotent | app.py:102-106 | selecting twice by the same mask equals selecting once |
| Classifier.SubsequenceTransitive | app.py:101-106 | successive selections stay subsequences of the original table |
| Classifier.FiltersKeepOrder | app.py:101-106 | the filtered table is an order-preserving subsequence of the table |
| Classifier.FiltersSelectExactly | app.py:101-106 | `ApplyFilters` holds exactly the rows that pass every active filter (date range, exact customer, exact `Job_Status`; `"All"` disables a filter), each as often as the table does |
| Classifier.StatusFilterSelectsLabel | app.py:105-106 | where every row carries its own status label, as `clean_data` leaves it, filtering on a label keeps exactly the rows with that status that pass the other filters |
| Classifier.FiltersIdempotent | app.py:101-106 | filtering the filtered table again with the same selection changes nothing |
| Classifier.DateFilterDropsMissing | app.py:101-102 | with a date range set, no row with a missing `Create Date` survives |
| Classifier.DistinctAtMostRows | app.py:120-121 | distinct jobs and distinct orders are each at most the row count |
| Classifier.AllLoaded | app.py:125 | the group AND-fold holds exactly when every row of the job is loaded |
| Classifier.AnyLoaded | app.py:166 | the OR-fold holds exactly when some row of the job is loaded |
| Classifier.Kpis | app.py:120-126 | the KPIs are the distinct jobs, the distinct orders and the strictly done jobs; done ≤ jobs ≤ rows, orders ≤ rows, all zero on an empty table |
| Classifier.OneRowBlocksJob | app.py:124-126 | one row that is not loaded keeps its job out of the strict count |
| Classifier.DoneJobsExactly | app.py:124-126 | `DoneJobs`: a job is strictly done exactly when it has rows and all of them are loaded |
| Classifier.DoneJobsCount | app.py:124-128 | the done jobs are a subset of the jobs, and as many as the jobs only when they are all of them |
| Classifier.SubsetSize | app.py:126-128 | a subset is no larger than its superset and of equal size only when equal |
| Classifier.RatioBounds | app.py:128 | a share of done over total jobs, in percent, lies in [0, 100] and is 100 exactly when done equals total |
| Classifier.CompletionRate | app.py:128 | the rate is strictly done jobs over distinct jobs times 100, 0 when there are no jobs; it lies in [0, 100] and is 100 exactly when there are jobs and every one is strictly done |
| Classifier.LoadedIsNotOverload | app.py:124-156 | a loaded row is never an overload row |
| Classifier.BucketCounts | app.py:150-178 | each bucket (`Green`, `Purple`, `Blue`, `Yellow`, `Red`, built through `PendingRows`, `StartedJobs` and `NotStarted`) holds exactly the rows that the row-by-row rule `BucketOf` sends to it, each as often as in the table |
| Classifier.BucketMembership | app.py:150-178 | a row is in a bucket exactly when it is in the table and `BucketOf` sends it there |
| Classifier.BucketsDisjoint | app.py:161-178 | any two different buckets share no row |
| Classifier.BucketsCover | app.py:150-178 | the five buckets together are the table, as multisets, and their sizes sum to the row count |
| Classifier.StartedMeansAnyLoaded | app.py:166 | `StartedJobs`: a job is started exactly when any of its rows is loaded |
| Classifier.DoneJobsAreStarted | app.py:125-166 | every strictly done job (ALL rows loaded) is a started job (ANY row loaded) |
| Classifier.BucketJobs | app.py:166-174 | every Blue row's job is among Green's jobs; no Yellow or Red row's job is |
| Classifier.BucketPacking | app.py:147-178 | Yellow rows are packed, Red rows are not, and an unstarted pending row with no packing status is Red |
| Classifier.MissingLoadingIsPending | app.py:152-156 | a row with no loading status is neither Green nor Purple |
| Classifier.Stats | app.py:181-183 | `(0, 0)` for an empty bucket; otherwise the distinct job and order counts, each between 1 and the row count |
| Classifier.RowStatusAndBuckets | src/utils.py:36-49 | the row label is Overload exactly for overload rows, and Complete exactly for rows that are loaded and packed |
| Classifier.LoadedButInProgress | app.py:152 | a loaded row whose packing is pending is Green yet labelled In Progress |
| Classifier.StartedJobScenario | app.py:166-170 | a job with one `LOADING DONE` row and one `PENDING` row: the first is Green, the second Blue |

## Left out

- The data loader (`src/data_loader.py`) is not part of this model. It fetches the feed over the network and caches it for five minutes. When anything fails it returns an empty table.
- Everything in `app.py` outside the core is not modelled: page setup, styling, auto-refresh, the sidebar, the cards, the tables and the charts.
- The tonnage and volume sums, the daily flow and the top product and customer charts are left out. They are floating-point sums and plots.
- `pd.to_datetime`, `pd.to_numeric` and the rendering of numbers and dates as text are not defined here. They are the fields of `Library`, total functions supplied by the caller. A parse that pandas would coerce to NaN or NaT answers `None`.
- `pd.to_datetime` infers one date format for a whole column. `Library.parseDate` parses each cell on its own, so a column whose cells would be read under a format inferred from another cell is not modelled.
- Numbers are exact reals (`Cell.Num(x: real)`), and so is the completion rate. The source computes in float64: its rounding is not modelled, and neither are `inf` and `-inf`, which `pd.to_numeric` accepts and `fillna(0)` keeps.
- A date is a calendar day (`Date = int`). The time of day, which `.dt.date` drops before comparing, is not kept.
- `Text.IsSpace` covers the ASCII whitespace, `\x1c`–`\x1f`, `\x85` and `\xa0`. The other Unicode whitespace that Python's `\s` and `str.strip` accept is not modelled.
- `Text.Upper` and `Text.Lower` map ASCII letters only. Python's full Unicode case mapping (`ß` → `SS`, for one) is not modelled.
- Duplicate column names are not modelled. Header cleanup can create them, for example `"Qty  X"` and `"Qty X"`. Pandas then returns several columns for one name; the model reads and rewrites the first column of that name.
- A table that lacks a column the classifier reads makes `app.py` stop with a `KeyError`: `JOB Num` (app.py:120, 125, 166), `Order No` (app.py:121), `Status_Loading` (app.py:125, 152, 156), `Status_Packing` (app.py:177), and `Create Date` or `TP Full Name`, which the sidebar reads whatever the filters (app.py:81, 88). A `LineItem` always has these fields, so the model never reaches that error.
- Job and order identifiers are always present in the model. Pandas' `groupby` and `nunique` drop missing keys; that is not reproduced.
- The classifier reads line items, not the column-wise `Table`. The model does not define the projection from a cleaned frame to `LineItem`s; it is a plain column lookup per row.
- The buckets use row predicates. The source removes Green and Purple through an index union; the two agree because the feed's default index is unique.
- Where the code does something one might not expect, the model follows the code:
  - numeric values are not clamped to be non-negative: `"-5"` stays -5;
  - `"1.234,50kg"` becomes `"1.234.50"`, which does not parse and so becomes 0, not 1234.50.
