# property_housing: the star-schema transform and the readiness poller

`property.py` is a batch script. It reads a flat CSV of property repair
records and builds a small star schema: `property_dim`, `region_dim` and
`property_fact_table`. It then writes the three tables to CSV files and to
PostgreSQL. It also defines `wait_for_postgres`, which probes the database
host with `pg_isready` until the host accepts connections or the retries
run out.

This project models the two parts of the script that have logic of their own.

- **The transform** (`property.py:31-40`), in modules `Frames` and
  `StarSchema`. It is modelled as pure functions over a sequence of `Row`
  records. The pandas calls it uses become sequence functions:
  - `drop_duplicates()` keeps a row only when no earlier row equals it
    (`Frames.DropDuplicates`).
  - `reset_index()` numbers the rows 0, 1, … in row order
    (`Frames.ResetIndex`, giving `Indexed(key, value)` rows).
  - The left `merge` on `region_name` gives, for each input row in order,
    one output row per matching `region_dim` row, or one row with a null key
    when nothing matches (`StarSchema.MergeRow`, `StarSchema.LeftJoin`). The
    projection to the six fact columns (`StarSchema.FactOf`) is done inside
    the join.
  - `StarSchema.Transform` chains these steps into the three tables.
- **The poller** `wait_for_postgres` (`property.py:10-27`), in module
  `Poller`. It is a method with a `while` loop over the local `retries`
  counter, as in the source. Each run of `pg_isready` is replaced by the
  next element of a sequence of outcomes:
  - `Raised`: a non-zero exit, seen as `CalledProcessError`.
  - `OkWithAcceptingText`: exit 0 with "accepting connections" in stdout.
  - `OkWithoutText`: exit 0 without that text.

  `Poller.Poll` is the same loop written as a function. The method is proved
  against it.

Only the `except` branch (lines 20-22) increments `retries`. A probe that
exits 0 but lacks the text loops again without using up a retry. The model
makes this explicit: `Poller.PollIgnoresNoText` proves that removing all
such probes changes neither the verdict nor the final counter. A finite
outcome sequence cannot express an endless run of such probes, during which
the source would loop forever. So `WaitForPostgres` requires that its
outcomes are enough for the loop to decide, and `Poller.PollDecides` says
when that holds.

The script defines `wait_for_postgres` but never calls it. The transform and
the load run whatever the database's state. The model keeps the poller as
the stand-alone function the source defines.

## Model

| member | source | states |
|---|---|---|
| `Frames.DropDuplicates` | property.py:31 | the result has no duplicate rows, every input row occurs in it, it holds only input rows, and it is no longer than the input |
| `Frames.DropDuplicatesOrder` | property.py:31 | the kept rows are in the order of their first occurrence in the input (strictly increasing first index) |
| `Frames.DropDuplicatesCharacterized` | property.py:31 | any sequence holding exactly the input's rows in first-occurrence order equals `DropDuplicates` of the input: the dedup is determined by those properties |
| `Frames.DropDuplicatesOfDistinct` | property.py:31 | a table without duplicate rows comes back from `drop_duplicates()` unchanged |
| `Frames.DropDuplicatesIdempotent` | property.py:31 | dropping duplicates a second time changes nothing |
| `Frames.FirstIndex` | property.py:31 | the first-occurrence position: it holds the row and no earlier position does |
| `Frames.ResetIndex` | property.py:36-37 | `reset_index()` keeps the rows and their order and numbers them `0 … n-1` in row order |
| `Frames.FlattenSingletons` | property.py:39-40 | when every input row merges into exactly one row, the merged table has one row per input row, in input order |
| `StarSchema.RegionMatches` | property.py:39 | the rows the merge matches for a name are exactly the `region_dim` rows that carry that name |
| `StarSchema.RegionMatchesUnique` | property.py:39 | in a dimension with unique names, a present name matches exactly one row |
| `StarSchema.MergeRowUnique` | property.py:39-40 | against a dimension with unique names that holds the row's region, one input row merges into exactly one fact row carrying that region's key |
| `StarSchema.LeftJoinOneToOne` | property.py:39-40 | a left join against a dimension with unique names that holds every input region keeps the row count and order, and fact row i is input row i with the key of its own region |
| `StarSchema.PropertyDimCorrect` | property.py:31-36 | `property_dim` holds each distinct `(property_id, construction_year, repair_year)` once, holds every triple of the input and nothing else, in first-occurrence order, with `index` equal to the row position starting at 0 |
| `StarSchema.RegionDimCorrect` | property.py:33-37 | `region_dim` holds each distinct `region_name` once, holds every input name and nothing else, in first-occurrence order, with `region_id` equal to the row position starting at 0 |
| `StarSchema.RegionDimJoinable` | property.py:33-39 | the `region_dim` the merge joins against has unique names and contains the region of every input row |
| `StarSchema.FactTableCorrect` | property.py:39-40 | `property_fact_table` has one row per input row in input order; each row's `region_id` is the key of the `region_dim` row named by its own region (never null); `property_id`, both years, `repair_count` and `total_repair_cost` are copied unchanged, so `property_id` stays the raw id, not the `property_dim` index |
| `StarSchema.OneRegionTwoProperties` | property.py:31-40 | two properties in region "North" give one `region_dim` row `(0, "North")`, two `property_dim` rows and two fact rows, both with `region_id` 0 |
| `Poller.Strip` | property.py:15-22 | removing the probes that exit 0 without the text leaves no such probe, keeps every raised and every successful probe as often as it occurs, and never lengthens the sequence |
| `Poller.PollFacts` | property.py:12-27 | a decided poll stops at the first "accepting connections" probe; it returns true only there, with fewer than `max_retries` failures; otherwise it returns false with `retries` at exactly `max_retries` after a raised probe; `retries` counts only the raised probes run; with `max_retries` already reached it returns false without probing |
| `Poller.PollIgnoresNoText` | property.py:15-22 | probes that exit 0 without the text do not count: dropping them all leaves unchanged whether the loop decides, what it returns and the final `retries` |
| `Poller.PollDecidesWithoutNoText` | property.py:13-22 | when every non-success outcome is a raised probe, as many outcomes as retries remain are enough for the loop to terminate |
| `Poller.PollDecides` | property.py:13-22 | the loop terminates on any outcome sequence holding at least as many raised or successful probes as retries remain, however many text-less probes lie between them |
| `Poller.UnreachableGivesUp` | property.py:13-27 | when every probe raises, the loop runs exactly the remaining number of probes and returns false with `retries == max_retries` |
| `Poller.CountRaisedAppend` | property.py:20-22 | one more probe adds one to the count of raised probes exactly when that probe raised |
| `Poller.WaitForPostgres` | property.py:10-27 | the loop agrees with `Poll`. It returns true exactly when the last probe run reported "accepting connections", and no earlier probe did. `retries` is the number of raised probes run. It is below `max_retries` on success. On failure it equals `max_retries` when `max_retries > 0`, and 0 otherwise. With `max_retries <= 0` it returns false having run no probe |

## Left out

- Reading `synthetic_property_data.csv` and writing the three CSV files (`property.py:29`, `42-44`): file I/O. The input is an in-memory sequence of `Row`s.
- Loading the tables into PostgreSQL (`property.py:60-77`): `create_engine`, `to_sql` with `if_exists='replace'`, and the per-table `try`/`except`. These are foreign library calls with a network side effect. The replace semantics cannot be stated without a model of the database.
- Reading the environment and checking all five settings are present (`property.py:8`, `47-57`): configuration plumbing tied to the process environment.
- The `pg_isready` subprocess, `time.sleep(delay_seconds)` and every `print` (`property.py:15-25`): an external process, timing and console output. They appear only as the abstract `Probe` outcomes. The `host` and `delay_seconds` parameters therefore disappear, and `max_retries` (default 5 in the source) is an explicit argument.
- Exceptions from `subprocess.run` other than `CalledProcessError` (for example a missing `pg_isready` binary): `wait_for_postgres` does not catch them, so they would pass out of it to its caller. The model has no outcome for them.
- Poller.WaitForPostgres: an endless run of probes that exit 0 without "accepting connections" makes the source loop forever. A finite outcome sequence cannot show this, so the method requires that its outcomes suffice for the loop to decide (`Poll(...).Some?`). `PollDecides` says when that holds.
- pandas cell semantics: NaN handling in `drop_duplicates` and `merge`, dtypes, and `total_repair_cost` as a float. Cells are plain values compared by equality, and the cost is carried through unchanged as a `real` and never computed on. The null `region_id` a left join could produce is `None`. It would also turn the column's dtype to float, which is not modelled, and `FactTableCorrect` proves the null never occurs here.
