# yadv batch download, modelled in Dafny

`yaadv inputs` downloads Advent of Code puzzle inputs: it picks a list of
days and a year, builds one input per day, fetches every input over HTTP
with the stored session cookie, and then walks the answers in order. A body
is written to the input's file. A 404 ("day N is either not unlocked yet or
doesn't exist") becomes a warning and the batch goes on. Any other HTTP
status aborts the batch, and files already written stay on disk.

The model keeps that decision logic and makes the outside world abstract:

- `Inputs.AdvInput` is one input. Its file path, that path's parent folder
  and its request URL come from the inputs module, which is not part of this
  model, so they are opaque fields of the value.
- The network is a parameter `http: Request -> FetchResult`. A `Request`
  carries the agent (its read and write timeouts), the URL and the `Cookie`
  value. `FetchResult` is the three-way outcome the downloader branches on:
  `Ok(body)`, `Status(code)`, or `Transport` (any failure that is not an
  HTTP status).
- `Api.FetchInputs` also returns `sent`, the log of the requests it made, so
  "one request per input" and "no request at all" can be stated.
- The disk is a map from path to contents (`Download.FileSystem`), passed in
  and returned. `Download.Disk` says which disk operations succeed:
  `mkdirOk` for `create_dir_all`, `canCreate(p)` for `File::create` at `p`,
  and `canWrite(p)` for `write_all` into the file just created there.
- `Download.DownloadInputs` is the imperative `download_inputs`. It is proved
  equal to the function `Download.Download`. That function is built from
  `FirstAbort` (the first result that stops the batch), `Writes` (the bodies
  written so far, by path) and `Warnings` (the 404 warnings so far). The
  lemmas state what the source promises about those.
- `Selection.Days` and `Selection.Year` are the day list and the default
  year chosen in `main`. The current date is a parameter.

Three details of the code that the model keeps:

- A failure that is not an HTTP status (connection error, timeout) is
  skipped silently: no warning, no abort. It matches neither branch of the
  `if let` in src/bin/yaadv.rs:32-48.
- `fetch_inputs` returns every result before any file is written, so a
  write failure cannot prevent later requests. The model's `sent` log is the
  whole batch whenever the pre-checks pass.
- `File::create` runs before `write_all` (src/bin/yaadv.rs:29). When the
  create succeeds and the write fails, the batch aborts with that file
  already truncated.
- src/api.rs types each item as `anyhow::Result<String>`, but
  src/bin/yaadv.rs:28-32 matches on `ureq::Response` and `ureq::Error::Status`.
  The model uses the three outcomes src/bin/yaadv.rs distinguishes. A failure
  while reading a body is folded into `Transport`, as src/api.rs:19-22 turns
  it into a per-item error.

## Model

| member | source | states |
|---|---|---|
| `Api.FetchInputs` | src/api.rs:7-26 | exactly one request per input, in input order; each uses the one agent with 5-second read and write timeouts and the cookie `"session=" + token`; result i is the network's answer to request i; the output has as many results as there are inputs |
| `Download.DownloadInputs` | src/bin/yaadv.rs:9-54 | an empty batch fails with "no input file" before any request or write; a missing parent folder or a failed `create_dir_all` also fails before any request and leaves the disk alone; otherwise every input's request is sent once, in order, and the outcome and the final disk are those of `Download` |
| `Download.ProcessResults` | src/bin/yaadv.rs:20-53 | the loop over the results, each paired with the input at the same index (in range because there is one result per input), ends with the outcome and disk of `Processed`: stopped at the first hard error with the earlier bodies written (and the file truncated by a failed write left empty), or done with every body written and the 404 warnings |
| `Download.AbortError` | src/bin/yaadv.rs:29-47 | the error names the index where processing stopped; it is an unhandled-status error carrying the code (never 404) exactly when that result is a status; otherwise it is a create failure exactly when `File::create` failed, and a write failure otherwise |
| `Download.FirstAbort` | src/bin/yaadv.rs:27-50 | the first result that stops the batch: a status other than 404, or a body whose file cannot be created or written; no earlier result stops it, and none at all when it is absent |
| `Download.NotFoundIndices` | src/bin/yaadv.rs:32-34 | the positions answering 404, ascending, and all of them |
| `Download.WarningsOnePerNotFound` | src/bin/yaadv.rs:32-40 | the warnings list has one entry per 404 result, in input order, each naming that input's day; it is empty exactly when no result was a 404 |
| `Download.WrittenPaths` | src/bin/yaadv.rs:28-30 | a path is written exactly when some processed input with that path got a body |
| `Download.LastBodyWins` | src/bin/yaadv.rs:28-30 | a written file holds, verbatim, the body of the last input written to that path: `File::create` truncates, it does not append |
| `Download.PrefixDecides` | src/bin/yaadv.rs:22-51 | what the first n results write and warn depends on those n results only |
| `Download.AbortKeepsOtherFiles` | src/bin/yaadv.rs:28-47 | a batch stopped at input k reports index k; a path no input before k wrote keeps its old contents (or stays absent), unless it is the file that `File::create` at k truncated before `write_all` failed, which is left empty; a path some inputs before k wrote holds the body of the last of them (no rollback) |
| `Download.AbortIgnoresLaterResults` | src/bin/yaadv.rs:43-46 | `bail!` and `?` return at once: results after the input k that stopped the batch are never looked at, so any results that agree up to k stop at k with the same outcome and the same disk |
| `Download.NotFoundOnlyWarns` | src/bin/yaadv.rs:32-40 | a 404 does not stop processing: with a skipped item in its place the batch writes the same files, and it aborts, with the same error, exactly when the other batch does |
| `Download.SameWrites` | src/bin/yaadv.rs:28-30 | results with the same bodies at the same places write the same files |
| `Download.TransportFailuresSkipped` | src/bin/yaadv.rs:31-48 | non-status failures give neither a warning nor an abort nor a write: a batch of only such failures completes with no warnings and an unchanged disk |
| `Download.NoWritesNoWarnings` | src/bin/yaadv.rs:31-48 | a prefix of only non-status failures writes nothing and warns nothing |
| `Download.RerunIsIdempotent` | src/bin/yaadv.rs:28-30 | running the same batch again on the disk it left behind gives the same outcome and the same disk |
| `Selection.DayRange` | src/bin/yaadv.rs:88 | `lo..=hi` collected: `hi - lo + 1` days, element i being `lo + i` |
| `Selection.Days` | src/bin/yaadv.rs:85-89 | the day list is `[day]` when a day is given, else the 25 days 1, 2, ..., 25 |
| `Selection.AllDaysAscendingAndComplete` | src/bin/yaadv.rs:85-89 | without a day, the list is strictly ascending and holds exactly the days 1 to 25 |
| `Selection.Year` | src/bin/yaadv.rs:91-101 | the year asked for if given; else the latest year whose December has begun (the current year in December, the year before otherwise) |

## Left out

- The HTTP stack: the agent, the wall-clock meaning of the 5-second timeouts and how responses are parsed. The network is the oracle `http`. The timeouts appear only as the agent configuration every request carries.
- The real filesystem: `create_dir_all` is the flag `mkdirOk`, `File::create` is the oracle `canCreate` and `write_all` the oracle `canWrite`. Directories are not modelled. Only the first input's parent folder is created (src/bin/yaadv.rs:10-18).
- Download.ProcessResults: a `write_all` that fails part way may leave a prefix of the body in the file; the model leaves that file empty, the state `File::create` left it in.
- Reading a successful response's body (`into_string()?` at src/bin/yaadv.rs:29): `Ok(body)` already holds the text. A failure there is folded into `Transport`, so it is skipped instead of aborting.
- `AdvInput::new`, `with_formatted_path`, `path()` and `request_url()`: the inputs module is not part of this model. Their results are the opaque fields of `Inputs.AdvInput`. For the same reason, building the inputs from the days in `main` (src/bin/yaadv.rs:112-124) is not modelled.
- The text of the messages: the 404 warning keeps only the day (`NotFound(day)`). The coloured formatting, `eprintln!`, the progress spinner and the final "Done downloading" line with `canonicalize` are output only.
- Command-line parsing, `Config::load`, the config-file check and the whole `credentials` command (interactive prompts, `Secrets` load and store, `process::exit`). These are I/O and configuration glue. A missing session token fails in `main` before `download_inputs` is called, so it is outside this model.
- `chrono::Utc::now()`: the current year and month are the parameter `now`. The 32-bit year of chrono is an unbounded integer here; decrementing it cannot overflow for any real date.
- HTTP status codes are unbounded integers rather than `u16`. Only the comparison with 404 matters.
