# Study plan tracker: schedule, resource keys, completion and progress

This project models the logic of `app.py`, a single Streamlit page that tracks a study
plan. It covers four things:

- the **study catalog**: an ordered mapping stage → subject → resource type → list of
  resources, where each resource has a description and a URL;
- the **schedule generator**, `create_study_schedule`;
- the **resource key** under which a resource's completion is recorded;
- the **completion set**, with the progress figures and the search computed from it.

Modules, one per component:

- `StudyPlan`: the catalog. Every dictionary level is a sequence of (name, value) pairs, kept in insertion order.
- `ResourceKeys`: the key formula `resource_type + "_" + str(i) + "_" + description[:20]`. It also gives the decimal rendering and a splitter that reads the key back.
- `Schedule`: the schedule generator, as written. It also gives the intended variant described under "## Findings".
- `Progress`: resource totals, completed counts, and the overall and per-stage percentages.
- `Completion`: the class `CompletionState`. It stands for `st.session_state.completed_resources`, a set of keys that may not exist yet in a fresh session.
- `Search`: the case-insensitive substring search.

Dates are integer day numbers. The start date and the fixed end date are parameters, so
the page's `datetime.now()` and its hard-coded 2025-10-04 are not computed here. Where
`app.py` uses `int(x / n)`, the model uses `TruncDiv`, which truncates toward zero. The
source does not check `end < start`, so the day total may be zero or negative; the model
allows that too. Percentages are exact `real` values.

Each loop that fills a result is proved against a specification function. The
counting, chart and search functions are written as a "prefix plus last element"
recursion, matching the loop's own order of accumulation. The exception is the schedule:
`Schedule.Walk` recurses on the first stage, and the loop of `CreateStudySchedule`
keeps `schedule + Walk(c[i..], current, ...) == Walk(c, start, ...)`, because each range
starts where the previous one ended. The search's four loop levels are split into one method per
level (`CollectList`, `CollectSubject`, `CollectStage`), and each appends to the same
result list.

Four points where `app.py` behaves differently from what one might expect of a study-plan
tracker; the model follows the code:

- The key does not contain the stage or the subject. One might expect a key per stage, subject, type and position. Resources with the same type, position and 20-character prefix share a key across stages and subjects.
- The range forced to end on the end date belongs to the mapping's last key. The comment at line 53 says the last non-empty stage, which is the rule `IntendedSchedule` uses.
- The overall "completed" figure is the size of the set. The per-stage figures count catalog resources whose key is in the set.
- Search results carry stage, subject, type, description and URL, and nothing more.

## Model

| member | source | states |
|---|---|---|
| `StudyPlan.Names` | app.py:60 | `list(subjects.keys())`: one name per entry of the mapping, in order, the i-th being the i-th key |
| `Schedule.CreateStudySchedule` | app.py:26-65 | the loop returns exactly the schedule `StudySchedule` defines: for each stage with subjects, a range from the current day, either `len` days long or forced to the end date when the stage is the mapping's last key, the next range starting the day after |
| `Schedule.TruncDiv` | app.py:37-50 | `int(a / n)` for `n > 0`: the remainder `a - q*n` lies in `[0, n)` for `a >= 0` and in `(-n, 0]` for `a < 0` (truncation toward zero) |
| `Schedule.NonEmptyStages` | app.py:33 | every result stage has a subject and comes from the catalog, and there are no more of them than stages |
| `Schedule.NonEmptyStagesComplete` | app.py:33 | conversely, every catalog stage with a subject is in the result |
| `Schedule.NonEmptyStagesSelect` | app.py:33 | the result is exactly the catalog's stages with a subject, in catalog order: its k-th stage is the catalog stage at the k-th of an increasing list of positions, and a position is in that list if and only if its stage has a subject |
| `Schedule.ScheduleEmpty` | app.py:33-39 | the schedule is empty if and only if no stage has a subject |
| `Schedule.ScheduleShape` | app.py:43-61 | one entry per non-empty stage, in catalog order, each with that stage's name and its subject names in order |
| `Schedule.ScheduleContiguous` | app.py:41-63 | the first entry starts on the start date; each later entry starts the day after the previous one ends |
| `Schedule.ScheduleLengths` | app.py:30-54 | an entry whose stage is not the mapping's last key spans `int((end - start + 1) / n)` days; the entry of the last key ends on the end date |
| `Schedule.ScheduleCoversWhenLastStageNonEmpty` | app.py:41-63 | with unique stage names and a non-empty last stage, the schedule starts on the start date, has no gaps, its final entry is the last stage and ends on the end date, and all earlier entries have the regular length |
| `Schedule.ScheduleLastStageEmpty` | app.py:52-54 | with an empty last stage, no entry is forced: all n entries have the regular length and the final one ends on `start + n * len - 1` |
| `Schedule.FiveStagePlan` | app.py:30-63 | 277 days and five non-empty stages (last one non-empty) give four 55-day ranges and a fifth from day 220 to the end day 276 |
| `Schedule.LastStageEmptyLeavesDayUnplanned` | app.py:52-54 | for stages A, B with subjects and an empty last key C over days 0..10, the code plans days 0-4 and 5-9 and leaves day 10 out; the intended rule plans 0-4 and 5-10 |
| `Schedule.IntendedScheduleCovers` | app.py:52-54 | with the last non-empty stage forced, the schedule always starts on the start date, has no gaps, ends on the end date, keeps stage order and subjects, and non-final entries have the regular length |
| `ResourceKeys.DecimalString` | app.py:81 | `str(i)`: non-empty, only decimal digits, no leading zero for a positive number |
| `ResourceKeys.ParseDecimalString` | app.py:81 | reading the decimal rendering back gives the number |
| `ResourceKeys.Prefix` | app.py:81 | `description[:20]`: a prefix of the description, of length `min(len, 20)` |
| `ResourceKeys.ResourceKey` | app.py:81 | the key of lines 81 and 243: it begins with the resource type and `_`, and the description adds at most 20 characters; its inverse is `SplitResourceKey` and its collisions are characterised by `ResourceKeyEquality` |
| `ResourceKeys.SplitResourceKey` | app.py:81 | for a resource type without `_`, the key splits back into the type, the 1-based position and the 20-character prefix |
| `ResourceKeys.ResourceKeyEquality` | app.py:81 | for types without `_`, two keys are equal if and only if type, position and 20-character prefix are equal |
| `ResourceKeys.SharedPrefixCollides` | app.py:81 | two descriptions sharing their first 20 characters give the same key |
| `ResourceKeys.UnderscoreTypeCollides` | app.py:81 | a type holding `_` can collide with another type, position and description |
| `Progress.CountTotalResources` | app.py:197-203 | the nested loops sum every resource-list length of the catalog |
| `Progress.CountStage` | app.py:235-245 | a stage's resource total, and the number of its resources whose key (type, 1-based position, description) is in the set |
| `Progress.ComputeStageProgress` | app.py:230-249 | the per-stage percentages, in catalog order, for stages that have subjects and a positive total |
| `Progress.ComputeReport` | app.py:197-249 | completed is the size of the set; total, the overall percentage, and the per-stage chart only when the total is positive |
| `Progress.Percent` | app.py:215-217 | `p * whole == part * 100`; `p` lies in `[0, 100]` when `part <= whole`, is 100 when `part == whole` and 0 when `part == 0` |
| `Progress.OverallPercent` | app.py:215-220 | the placeholder 0 when the total is 0, otherwise `completed / total * 100` |
| `Progress.StageCompletedBound` | app.py:238-245 | `0 <= week_completed <= week_total`; it equals the total when every key of the stage is in the set, and 0 when none is |
| `Progress.StageProgressEntries` | app.py:230-249 | every chart entry is a stage with subjects and positive total, with its percentage in `[0, 100]`; conversely every such stage has its entry |
| `Progress.StagePercentExtremes` | app.py:241-249 | a stage all of whose keys are marked shows 100; the empty set shows 0 |
| `Progress.CatalogKeysBound` | app.py:200-203 | the catalog gives rise to at most as many distinct keys as it has resources |
| `Progress.KeyAtInCatalog` | app.py:75-81 | the key derived for any catalog resource is one of the catalog's keys |
| `Progress.ReportBounds` | app.py:197-249 | when every completed key comes from the catalog, completed is at most the total and every percentage lies in `[0, 100]` |
| `Progress.SharedKeyAcrossStages` | app.py:198-249 | two stages whose resources share type, position and prefix share one key: marking it once shows both stages at 100 and overall 1 of 2, 50 |
| `Completion.CompletionState.constructor` | app.py:83-84 | a fresh session holds no completion set; it reads as empty |
| `Completion.CompletionState.EnsureCreated` | app.py:193-194 | the set exists afterwards and holds what it held before (empty if it was missing) |
| `Completion.CompletionState.MarkCompleted` | app.py:81-85 | the set exists and gains exactly the derived key; marking an already completed key changes nothing |
| `Completion.CompletionState.IsCompleted` | app.py:89 | true exactly when the key is in the (possibly missing, hence empty) set |
| `Completion.CompletionState.Reset` | app.py:257-258 | the set exists and is empty |
| `Completion.CompletionState.ShowProgress` | app.py:192-249 | creates the set when missing, leaves its contents unchanged, and returns the report of the catalog against it |
| `Completion.MarkCatalogResource` | app.py:75-85 | marking a listed resource adds its key, and keeps every completed key a key of the catalog |
| `Completion.SessionScenario` | app.py:81-258 | a worked session over a one-resource catalog: the resource marked twice counts once, giving 1 of 1 and 100 percent; after the reset of line 258 the figures are 0 of 1 and 0 percent |
| `Search.SearchCatalog` | app.py:269-283 | the search returns exactly `SearchResults`: nothing for the empty term, otherwise the matching resources in catalog order |
| `Search.CollectList` | app.py:275-283 | appends the matching resources of one resource-type list, in list order |
| `Search.CollectSubject` | app.py:274-283 | appends the matching resources of one subject, type by type |
| `Search.CollectStage` | app.py:273-283 | appends the matching resources of one stage, subject by subject |
| `Search.Matches` | app.py:276 | `search_term.lower() in description.lower()` with ASCII lower-casing: true exactly when the lower-cased term occurs at some index of the lower-cased description, and always for the empty term |
| `Search.ContainsOccurrence` | app.py:276 | `term in text` holds exactly when the term occurs at some index of the text |
| `Search.SearchSpecification` | app.py:269-283 | empty term gives no result; otherwise the results are the catalog's resources (with stage, subject, type, description, URL) filtered by the lower-cased match, in catalog order; a row is a result if and only if it is a catalog resource that matches |
| `Search.PdfExample` | app.py:276 | "PDF" matches "Questões em PDF" and does not match "Apostila em Word" |

## Left out

- Streamlit rendering: page config, sidebar, widgets, expanders, metrics, data frames, charts and `st.rerun`. This is view glue.
- Loading `study_plan.json` and the `FileNotFoundError` branch. These are file I/O; the catalog is a parameter.
- `strftime`/`strptime` date formatting and the schedule statistics panel. These are presentation; dates stay integers.
- `datetime.now()` and the hard-coded end date. Both are parameters.
- Python's `date` range: `date + timedelta` raises `OverflowError` outside years 1-9999. Integers here are unbounded.
- Schedule.TruncDiv: computes `int(a / n)` exactly. Python's float division `a / n` is correctly rounded, so truncating it gives the same result whenever |a| < 2^53. The `date` range (years 1-9999) keeps the day total below 3,652,060 in absolute value, so nothing is lost.
- Float rounding and the `%.1f` display of percentages. Percentages are exact reals.
- Search.Lower: ASCII letters only. Python's `str.lower()` also maps non-ASCII letters such as "Õ".
- Lone surrogates: a Dafny `char` is one Unicode scalar value, so `Prefix` and `Lower` slice and compare by code point as Python does, but a Python `str` may also hold an unpaired surrogate code point, which a Dafny string cannot.
- Stage names as dictionary keys: the per-stage chart is a sequence of (name, percent) pairs. A dictionary would merge duplicate names, which cannot occur in a dictionary-backed catalog.
- Not modelled because `app.py` does not have them: export/import of state, study-session logging, settings, timestamps, un-marking a resource, and a "reset everything" operation.

## Findings

| source | as written | input that shows it | evidently intended | confidence | as-written member | corrected member |
|---|---|---|---|---|---|---|
| app.py:53 | the range forced to end on the end date is the one whose stage name equals the last key of the whole mapping | stages A and B each with one subject, last key C with none, days 0 to 10: ranges 0-4 and 5-9, day 10 unplanned | the comment says "last non-empty week": force the last non-empty stage to end on the end date | not executed | `Schedule.LastStageEmptyLeavesDayUnplanned` | `Schedule.IntendedScheduleCovers` |

`Schedule.CreateStudySchedule` and the properties above it model the code as written.
`Schedule.IntendedSchedule` is the corrected definition, and `Schedule.IntendedScheduleCovers`
proves that it always covers the whole interval.
