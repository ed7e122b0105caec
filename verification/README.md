# PharmaPulse-ET pipeline core, modelled in Dafny

This project models the three pieces of logic in the PharmaPulse-ET data
pipeline that are more than I/O glue, and proves properties of them:

1. **Orchestration** (`kara_dagster_pipeline/repo.py`). `run_command` builds a
   shell string (prefixing `cd <project_dir> && ` when `project_dir` is truthy),
   starts one process, forwards all of its stdout lines and then all of its
   stderr lines, and either returns `"Command executed successfully"` or raises
   with the return code and the full command. The Dagster job
   `end_to_end_telegram_pipeline` wires four ops in a line, scrape → load → dbt
   (`dbt run` then `dbt test`) → YOLO. Each op takes the previous op's return
   value. The model is a fold over the op chain against a process oracle
   (`Shell`: shell string → stdout lines, stderr lines, return code). It records
   the processes started, the forwarded output, the log lines, the value each
   op received, and the end state `Succeeded` or `Failed(op, code, command)`.
2. **Unprocessed-image selection** (`src/enrichment/run_yolo.py`).
   `get_unprocessed_images` keeps the `.jpg` files of the directory walk whose
   name without extension reads as an integer message id. It then drops the ids
   that already have a detection row. The processing loop inserts one row per
   accepted detection and carries on past images whose processing raises. The
   walk is a list of (root, file name) pairs. The detector is an oracle that
   returns the accepted class names and whether it raised.
3. **Raw-table upsert** (`src/loading/load_to_raw.py`). `load_data_to_raw`
   walks `base/<channel>/<date>/<file>.json` and upserts each JSON object keyed
   by its `id` into a `map<int, Row>`. On conflict only `data` and `loaded_at`
   change, and the stored `channel` is kept. Nothing is committed unless the
   whole walk gets through.

Modules: `Wrappers` (Option, Result), `Decimal` (the `str(int)` / `int(str)`
subset used), `Paths` (`endswith`, `os.path.join`, `splitext`, and a `basename`
used only to state what `join` keeps),
`CommandRunner`, `Pipeline`, `ImageSelection`, `RawLoader`.

Points of the code that shape the model:
- `run_command` drains stdout completely, then stderr (`CommandRunner.Forward`).
- An op does not wrap the exception from `run_command`; it propagates, and
  Dagster reports it against the op. The model records that op's name in
  `Failed`.
- The schedule is a constant that the code never evaluates
  (`Pipeline.DailySchedule`).
- Nothing checks the command or the project directory. A failing `cd` is just a
  non-zero return code from the oracle.

## Model

| member | source | states |
|---|---|---|
| CommandRunner.FullCommand | kara_dagster_pipeline/repo.py:11-14 | With a truthy `project_dir` the shell string is exactly `cd <dir> && <command>`. With `None` or `""` it is the command unchanged. It always ends with the command, and it is longer exactly when a directory is prefixed. |
| CommandRunner.Forward | kara_dagster_pipeline/repo.py:27-30 | Forwarded output is every stdout line verbatim, at its own position, followed by every stderr line verbatim. There is no interleaving. |
| CommandRunner.RunCommand | kara_dagster_pipeline/repo.py:8-36 | One call starts exactly one process, for the full shell string, and forwards its output. It returns the fixed success string exactly when the return code is 0. Otherwise it raises with that return code and the full shell string. |
| CommandRunner.FailureMessageRoundTrip | kara_dagster_pipeline/repo.py:35 | The text of the raised exception can be decoded back into the return code and the full command, so the message carries both. |
| CommandRunner.FailureMessage | kara_dagster_pipeline/repo.py:35 | The raised message starts with the fixed `Command failed with return code ` text and ends with the full command. `FailureMessageRoundTrip` states that the code and command can be read back from it. |
| CommandRunner.FailureMessageNamesCodeAndCommand | kara_dagster_pipeline/repo.py:33-35 | For a non-zero return code, the failure's message decodes to that code and the executed shell string, and it ends with the shell string. |
| Decimal.ParseInt | src/enrichment/run_yolo.py:57 | `int(s)` succeeds exactly on an optional sign followed by at least one ASCII digit. Its sign agrees with the text. |
| Decimal.ParseIntOfIntToString | kara_dagster_pipeline/repo.py:35 | Reading back the decimal text of an integer, as written into the error message or an image name, gives the same integer. |
| Decimal.IntToStringInjective | kara_dagster_pipeline/repo.py:35 | Distinct return codes are written as distinct texts. |
| Decimal.NatToStringOfDigitsValue | src/enrichment/run_yolo.py:57 | The reverse round trip: a non-empty digit string without leading zeros, read as a number and written out again, gives the same string. |
| Decimal.ParseIntLeadingZero | src/enrichment/run_yolo.py:57 | A leading `0` does not change what `int()` reads, so `007` reads as 7. |
| Decimal.ParseIntPlus | src/enrichment/run_yolo.py:57 | A leading `+` does not change what `int()` reads, so `+5` reads as 5. |
| Decimal.ParseIntMinus | src/enrichment/run_yolo.py:57 | A leading `-` negates what `int()` reads from the digits. |
| Decimal.ParseIntOfCanonical | src/enrichment/run_yolo.py:57 | An unsigned digit string without leading zeros reads as a non-negative number whose decimal text is that string. |
| Paths.JoinShape | src/enrichment/run_yolo.py:58 | `os.path.join(root, name)` ends with `name`. A relative name is appended to `root` with at most one separator inserted; an absolute name replaces `root`. |
| Paths.BasenameOfJoin | src/enrichment/run_yolo.py:58 | The base name of a joined image path is the file name from the walk. |
| Paths.Stem | src/enrichment/run_yolo.py:57 | `splitext(name)[0]` is a prefix of the name. What it cuts off starts with a dot and holds no further dot or separator. |
| Pipeline.RunCommands | kara_dagster_pipeline/repo.py:42-72 | An op body starts at least one command and logs one success line per command that returned. When it returns, its value is the success string and it logged once per command. When it raises, it logged once per command before the failing one. `RunCommandsHalts` states which commands it starts. |
| Pipeline.RunOp | kara_dagster_pipeline/repo.py:39-73 | An op logs its entry line first and then one success line per command that returned. When it returns, its value is the success string and it logged once per command. When it raises, it logged the entry line and one line per command before the failing one. |
| Pipeline.RunOps | kara_dagster_pipeline/repo.py:75-81 | The first op receives nothing. Every later op that runs receives the success string returned by the op before it. A successful run gives every op its input. |
| Pipeline.RunJob | kara_dagster_pipeline/repo.py:75-81 | One run of the job starts a prefix of the five declared shell strings. It succeeds exactly when it started all five and the last returned 0. |
| Pipeline.RunCommandsHalts | kara_dagster_pipeline/repo.py:60-65 | Within an op, the started commands are a prefix of its commands in written order. All but the last returned 0, and the op fails exactly when the last one did not. |
| Pipeline.RunCommandsForwards | kara_dagster_pipeline/repo.py:60-63 | An op forwards the output of exactly the processes it started, in order. |
| Pipeline.RunCommandsFailure | kara_dagster_pipeline/repo.py:34-35 | The failure an op raises names the last command it started and that command's return code. |
| Pipeline.RunOpsHalts | kara_dagster_pipeline/repo.py:76-81 | The job's started commands are a prefix of the declared order, and every one but the last returned 0. The run fails exactly when the last started command failed; a successful run started every declared command. |
| Pipeline.RunOpsForwards | kara_dagster_pipeline/repo.py:76-81 | The job forwards the output of exactly the processes it started, in order. |
| Pipeline.RunOpsFailure | kara_dagster_pipeline/repo.py:76-81 | A failed run reports the last command started and that command's return code. |
| Pipeline.RunOpsFailureNamesOp | kara_dagster_pipeline/repo.py:76-81 | A failed run is reported against the last op that received a value, which is the op that was running. |
| Pipeline.RunOpsFailureWithinOp | kara_dagster_pipeline/repo.py:76-81 | In a failed run, the started commands are all those of the ops before the blamed op plus at least one and at most all of the blamed op's own commands. |
| Pipeline.HaltsAtFirstNonZero | kara_dagster_pipeline/repo.py:76-81 | If command k is the first with a non-zero code, exactly commands 0..k are started and the run fails. |
| Pipeline.SucceedsWhenAllZero | kara_dagster_pipeline/repo.py:76-81 | If every declared command returns 0, all of them are started and the run succeeds. |
| Pipeline.NotStartedAfterFailure | kara_dagster_pipeline/repo.py:60-63 | A command declared after a failing one is never started. |
| Pipeline.DeclaredFullPipeline | kara_dagster_pipeline/repo.py:39-81 | The job's declared shell strings are scraper, loader, `cd kara_dbt_project && dbt run`, `cd kara_dbt_project && dbt test`, and YOLO, in that order. |
| Pipeline.FullPipelineSucceeds | kara_dagster_pipeline/repo.py:76-81 | When every command returns 0, the run succeeds and starts the five commands in declared order, each once. Each downstream op receives the upstream success string. |
| Pipeline.RunOpsLog | kara_dagster_pipeline/repo.py:42-72 | A successful run logs, op by op, the op's entry line and then one success line per command. |
| Pipeline.FullPipelineLog | kara_dagster_pipeline/repo.py:42-72 | The log of a fully successful run, line by line: an entry line and success lines for each of the four ops. |
| Pipeline.FullPipelineFailsAt | kara_dagster_pipeline/repo.py:76-81 | If the command at position k is the first to fail, exactly the first k+1 commands are started. The run ends `Failed` at that command with its return code, against `scrape_telegram_data` (k = 0), `load_raw_to_postgres` (k = 1), `run_dbt_transformations` (k = 2 or 3) or `run_yolo_enrichment` (k = 4). |
| Pipeline.DbtTestOnlyAfterDbtRun | kara_dagster_pipeline/repo.py:60-63 | If `dbt run` fails, `dbt test` is never started. |
| Pipeline.DbtOpReturnsTestResult | kara_dagster_pipeline/repo.py:55-65 | After a successful `dbt run`, the dbt op has started `dbt run` and `dbt test` in `kara_dbt_project`. Its value or failure is that of `dbt test`. |
| Pipeline.NothingRetried | kara_dagster_pipeline/repo.py:17-35 | No command is started more often than it is declared. |
| Pipeline.FullPipelineStartsEachCommandOnce | kara_dagster_pipeline/repo.py:75-81 | Within one run, no shell string of the pipeline is started twice. |
| Pipeline.RunOpIgnoresUpstream | kara_dagster_pipeline/repo.py:47-53 | An op's behaviour does not depend on the value it receives. |
| Pipeline.RunTriggers | kara_dagster_pipeline/repo.py:83-88 | Each trigger runs the job on its own, against that trigger's shell. No state is carried from one run to the next. |
| Pipeline.EveryTriggerStartsFromScratch | kara_dagster_pipeline/repo.py:75-88 | Every triggered run starts with the scraper and gives it no input, whatever earlier runs did. |
| Pipeline.RerunRepeatsEveryCommand | kara_dagster_pipeline/repo.py:75-81 | Two successful runs each start every declared command. |
| ImageSelection.StemOfJpg | src/enrichment/run_yolo.py:54-57 | For a file name ending in `.jpg`, parsing the `splitext` root reads the same as parsing the name minus its last four characters. |
| ImageSelection.CandidateOfFileName | src/enrichment/run_yolo.py:54-58 | A walk entry yields an image exactly when the name ends in `.jpg` and the text before `.jpg` reads as an integer. The image's id is that integer and its path is `join(root, file)`. |
| ImageSelection.ScraperImageNameRoundTrip | src/enrichment/run_yolo.py:54-58 | A file the scraper saved as `<id>.jpg` is selected under that id, at its joined path. |
| ImageSelection.Candidate | src/enrichment/run_yolo.py:53-60 | Has no contract of its own. `CandidateOfFileName` states that an entry yields an image exactly when its name ends in `.jpg` and the rest reads as an integer, with that id and the joined path. |
| ImageSelection.Candidates | src/enrichment/run_yolo.py:52-60 | The walk gives at most one image per entry. `CandidatesMembership` states that an image is listed exactly when some entry yields it. |
| ImageSelection.Keep | src/enrichment/run_yolo.py:67 | The filtered list is no longer than its input. Every element comes from the input and has an id that is not processed. |
| ImageSelection.Unprocessed | src/enrichment/run_yolo.py:47-69 | No returned image has a processed id, and every returned path ends in `.jpg`. |
| ImageSelection.CandidatesAreJpg | src/enrichment/run_yolo.py:54 | Every candidate image comes from a file whose name ends in `.jpg`. |
| ImageSelection.ProcessedIds | src/enrichment/run_yolo.py:63-65 | The processed ids are exactly the message ids present in the detections table. |
| ImageSelection.UnprocessedMembership | src/enrichment/run_yolo.py:52-67 | An image is returned exactly when some walk entry yields it and its id is not processed. |
| ImageSelection.UnprocessedAppend | src/enrichment/run_yolo.py:52-58 | Selection keeps walk order: two stretches of the walk give their images one after the other. Duplicates sharing an id are all kept. |
| ImageSelection.UnprocessedSingle | src/enrichment/run_yolo.py:53-67 | A single walk entry gives its image when it is a candidate with an unprocessed id, and nothing otherwise. |
| ImageSelection.SkippedFileIsHarmless | src/enrichment/run_yolo.py:55-60 | A file whose name does not yield an image is skipped and the scan goes on, as if the file were absent. |
| ImageSelection.RowsFor | src/enrichment/run_yolo.py:88-103 | An image contributes one row per accepted detection, in order. Each row carries the image's id and path. |
| ImageSelection.ProcessImagesAppend | src/enrichment/run_yolo.py:81-105 | Images are processed independently. Rows and logged failures of a stretch of images do not depend on what happened to earlier images. |
| ImageSelection.ProcessImages | src/enrichment/run_yolo.py:80-105 | At most one failure is logged per image. `ProcessImagesAppend`, `ProcessOneImage` and `ProcessedIdsOfPass` state the rows and failures each image contributes. |
| ImageSelection.RunEnrichment | src/enrichment/run_yolo.py:71-108 | The pass only appends rows: the table before the pass is a prefix of the table after it. `ReselectedUntilDetected` states which images the next pass selects again. |
| ImageSelection.ProcessOneImage | src/enrichment/run_yolo.py:83-105 | One image adds its accepted detections as rows, kept even if the detector then raised. It adds a logged failure exactly when the detector raised. |
| ImageSelection.ProcessedIdsOfPass | src/enrichment/run_yolo.py:95-103 | An id gains a detection row exactly when the detector accepted at least one detection for an image with that id. |
| ImageSelection.ReselectedUntilDetected | src/enrichment/run_yolo.py:63-67 | After a pass, a selected image is selected again on the next pass exactly when no selected image with its id received a detection row. |
| RawLoader.FilesInMembership | src/loading/load_to_raw.py:51-53 | In a date directory, exactly the entries named `*.json` are taken, at `join(date path, name)`. |
| RawLoader.FilesIn | src/loading/load_to_raw.py:51-53 | A date directory gives at most one file per entry, and every file it gives is named `*.json`. |
| RawLoader.FilesInDates | src/loading/load_to_raw.py:48-53 | Every file found under a channel directory is named `*.json`. `FilesInDatesMembership` states exactly which entries are found. |
| RawLoader.FilesInChannels | src/loading/load_to_raw.py:45-53 | Every file found under the base directory is named `*.json`. `FilesInChannelsMembership` states exactly which entries are found. |
| RawLoader.FilesInDatesMembership | src/loading/load_to_raw.py:48-53 | In a channel directory, only entries that are directories are descended into. |
| RawLoader.FilesInChannelsMembership | src/loading/load_to_raw.py:45-53 | Exactly the `*.json` entries at `base/<channel>/<date>/` are loaded, with channel and date both directories. Other entries at those levels are skipped. |
| RawLoader.KeyOf | src/loading/load_to_raw.py:29 | A row key is exactly an integer `id` inside the `BIGINT` range. |
| RawLoader.Read | src/loading/load_to_raw.py:54-68 | A file reads exactly when it is a regular file holding a JSON object whose `channel` is not an object and whose `id` fits the key column. The record's `data` is the whole object, and its `channel` is the `channel` member, or NULL when that is absent. A directory, bad JSON, a non-object, an object-valued `channel` and a bad `id` each give their own error. |
| RawLoader.Upsert | src/loading/load_to_raw.py:59-68 | Upsert adds the key and sets `data` and `loaded_at`. It keeps a stored `channel` on conflict, takes the record's `channel` on insert, and leaves all other rows unchanged. |
| RawLoader.UpsertAll | src/loading/load_to_raw.py:59-68 | Upserting in order never removes a key, and every row afterwards is either untouched or stamped with the run's time. `UpsertAllRow` states each row's exact contents. |
| RawLoader.Walk | src/loading/load_to_raw.py:44-68 | A walk that gets through keeps every key of the table. A walk that stops names a found file that does not read, with its error. `WalkIsReadThenUpsert` states that the walk equals reading everything and then upserting in order. |
| RawLoader.ConflictKeepsChannel | src/loading/load_to_raw.py:63-65 | On conflict the row becomes the stored channel, the new data and the transaction time. |
| RawLoader.ReadAll | src/loading/load_to_raw.py:51-57 | Reading all found files gives one record per file, in order, or names the first file that raises. |
| RawLoader.WalkIsReadThenUpsert | src/loading/load_to_raw.py:44-68 | The interleaved read-and-upsert walk fails exactly at the first unreadable file. Otherwise it equals upserting all records in order. |
| RawLoader.LoadDataToRaw | src/loading/load_to_raw.py:38-71 | The load fails exactly when some found file does not read. A failed load leaves the committed table unchanged. A load that does not fail commits the upsert, in walk order, of every record read. |
| RawLoader.FailedLoadCommitsNothing | src/loading/load_to_raw.py:44-70 | If any found file raises, no message rows from the run are committed, and the reported failure is the first such file. |
| RawLoader.UpsertAllRow | src/loading/load_to_raw.py:59-68 | After the upserts, a key is present exactly when it was before or some record carries it. Such a key holds the last record's `data` and the run's time. Its `channel` is the previously stored one if the key existed, else the first record's. All other rows are untouched. |
| RawLoader.LoadTwiceSameContent | src/loading/load_to_raw.py:58-68 | Loading the same records twice gives the same keys, channels and data. Only `loaded_at` changes. |

## Left out

- Process spawning, `/bin/bash` and the pipes are replaced by the `Shell` oracle. So is the deadlock a real run can hit when stderr fills its pipe while stdout is being drained.
- CommandRunner.RunCommand: output that cannot be decoded in the locale encoding is not modelled. The pipes are opened in text mode, so such output raises `UnicodeDecodeError` while being forwarded, before the return code is read, and the op fails even on exit code 0. The oracle's lines are taken as already decoded, so the model's outcome is `Returned` exactly when the code is 0.
- The Dagster runtime and decorators are left out. An op that raises is modelled only through the dataflow of the job body: a failed op returns no value, so nothing downstream runs.
- The cron schedule is kept as a constant. It is never evaluated, and overlapping triggers are not defined because the code does not define them. `RunTriggers` runs one trigger after another.
- Python `int()` whitespace, underscores and non-ASCII digits are not modelled. `Decimal.ParseInt` accepts an optional sign and ASCII digits only.
- YOLO model loading, inference, the `> 0.4` confidence threshold and the confidence-score column are left out. The detector oracle returns the already-accepted class names.
- The database is modelled only as the detections table and the raw messages table. psycopg2 connections, schema and table creation, environment configuration and log text are left out. So are database errors during the detection inserts, which would abort that transaction.
- RawLoader.Read: an `id` that is a JSON string or a float is treated as a failure. Postgres might coerce it into a `BIGINT`, and that coercion is not modelled.
- RawLoader.Read: a `channel` that is an object fails the load, because the driver cannot adapt a `dict`. Any other non-string `channel` is stored as its JSON value. The server's text conversion of it, its rejection of arrays it cannot type as one array, and the `VARCHAR(255)` length limit are not modelled.
- JSONB normalisation of `data` is not modelled, and neither are file-system errors other than opening a directory. The order of `os.walk` and `os.listdir` is taken as given input, and symbolic links are not modelled.
- The Telegram scrapers, `scripts/load_raw_to_postgres.py` and the FastAPI read API are not part of this model.
