# audioset-download, modelled in Dafny

The audioset-download package fetches audio clips of the AudioSet corpus. A `Downloader`
reads the corpus's class index and builds a display-name-to-machine-id dictionary. It then
loads a segments table, either from a local file or from the corpus's remote CSV. If labels
were requested, it keeps the rows whose label field mentions one of the resolved machine
ids. It unquotes the label field and runs `download_file` once per kept row. That call skips
a clip whose `.wav` file already exists and otherwise hands it to `yt-dlp`. A separate
maintenance script, `utils/split_audioset.py`, is meant to drop the three comment lines of a
segments table, cut the rest into consecutive files and check that they read back to the same
lines; as written it stops earlier (see "## Left out"), and the model covers that splitting
logic on its own.

This project models that logic as pure functions over immutable values:

- `wrappers.dfy` (`Wrappers`): `Option`, `Result` and the two Python exceptions raised
  before any fetch (`ValueError`, `KeyError`).
- `seqs.dfy` (`Seqs`): order-preserving filtering, subsequences and concatenation, with
  the lemmas the other modules use.
- `text.dfy` (`Text`): Python's substring test `sub in s` and `s.replace('"', '')`.
- `paths.dfy` (`Paths`): POSIX `os.path.join` of two components.
- `class_mapping.dfy` (`ClassMapping`): `read_class_mapping`'s dictionary and the
  resolution of requested display names.
- `downloader.dfy` (`Downloader`): source selection, row filtering, unquoting, dispatch
  and the per-row skip-or-fetch decision.
- `split_audioset.dfy` (`SplitAudioset`): the header drop, the slice bounds
  `i * L / n` and the read-back check, for any number of files `n >= 1`.

Rows of a metadata table are given already split into their four columns
(`ytid`, start, end, raw label text). The set of files already present in the destination
directory is a parameter. The external `yt-dlp` call is an opaque `Fetch` record.

The model follows the code where the code and its documentation disagree:

- Rows are matched by substring containment of a machine id in the raw, still quoted label
  text (`Downloader.py:92`), not by membership in a parsed label set. `Text.QuotedContainsIff`
  shows that the surrounding quotes never change the outcome for quote-free ids.
- A given `metadata_path` always wins, even when `download_type` is also set; no conflict is
  reported. The remote branch is taken only when `download_type` is None
  (`Downloader.py:79`). That inverts the error message, and the URL then names
  `None_segments.csv` (`Downloader.RemoteUrlNamesNone`).
- The existence check always looks for `<root>/<ytid>.wav` (`Downloader.py:120`). `yt-dlp`
  writes `<root>/<ytid>.<ext>` for the requested format. So only a `wav` run is resumable
  (`Downloader.ProducedPathIsChecked`).
- The docstring of `download_file` says a clip with several labels is stored several times.
  The filter keeps each matching row exactly once (`Downloader.KeepRows`).
- Requesting an empty list of labels is not the same as requesting none: `any([])` is
  False, so nothing is selected (`Downloader.EmptyLabelListSelectsNothing`).
- A display name missing from the class index raises `KeyError` from the dictionary
  lookup. The first missing name in request order is the one reported.
- Duplicate display names in the class index resolve to the last entry's id, as
  `dict(zip(...))` does.
- The docstring of `download` says the format defaults to vorbis; the code defaults it to
  `"wav"` (`Downloader.py:59,64`). That default is what makes a default run resumable, since
  the existence check looks for `.wav` files. `Downloader.Download` takes the format and the
  quality as explicit arguments.
- The command line (`download.py:40-45`) always passes a `download_type` (its argument has
  the default `"eval"`) and no `metadata_path`, so with the inverted test every command-line
  run raises `ValueError` (`Downloader.CommandLineRunFails`).

## Model

| member | source | states |
|---|---|---|
| ClassMapping.DisplayToMachine | audioset_download/Downloader.py:53 | every display name of the class table is a key; it maps to the mid of the last entry carrying that name; every key comes from some entry with that mid |
| ClassMapping.DisplayToMachineUnique | audioset_download/Downloader.py:53 | with unique display names, each entry's name resolves to its own mid |
| ClassMapping.Resolve | audioset_download/Downloader.py:91 | succeeds iff every requested name is a key, then yields the ids in request order; otherwise fails with `KeyError` naming the first missing name |
| Downloader.NewSession | audioset_download/Downloader.py:31-40 | a constructed downloader's dictionary has exactly the class table's display names as keys |
| Downloader.SelectSource | audioset_download/Downloader.py:71-89 | a given metadata path always wins and is read whole; the remote table (three rows skipped) is chosen iff both path and type are None; path None with type set is a `ValueError` |
| Downloader.RemoteUrlNamesNone | audioset_download/Downloader.py:79-81 | whenever the remote branch is taken its URL names `None_segments.csv`, never a real selector |
| Downloader.LoadTable | audioset_download/Downloader.py:72-87 | a local file yields all its records; a remote table yields its records after the first `skipRows`, or none if it is shorter |
| Text.ContainsIff | audioset_download/Downloader.py:92 | the substring test used for matching holds iff the id occurs at some position of the label text |
| Downloader.KeepRows | audioset_download/Downloader.py:92 | the kept rows are an order-preserving subsequence of the input; a row is kept iff some id occurs in its raw label text, and then as often as it occurs |
| Text.StripQuotes | audioset_download/Downloader.py:93 | the result has no double quote; every other character keeps its multiplicity; the result is a subsequence of the input |
| Text.StripQuotesIdempotent | audioset_download/Downloader.py:93 | stripping quotes twice equals stripping once |
| Text.QuotedContainsIff | audioset_download/Downloader.py:92-93 | a quote-free id occurs in a quoted field iff it occurs in the bare value |
| Downloader.QuotedFieldLikeBare | audioset_download/Downloader.py:92-93 | a quoted label field matches quote-free ids exactly as its bare value does, and is stored as that bare value |
| Downloader.SelectRows | audioset_download/Downloader.py:90-94 | fails (with `KeyError`) iff labels were requested and one is unknown; on success at most as many rows as loaded, none with a double quote in its labels |
| Downloader.DownloadAllWithoutLabels | audioset_download/Downloader.py:71-94 | without labels every loaded record is dispatched in order with only its labels unquoted: all records of a local file, all after the first three of a remote table |
| Downloader.DownloadKeepsMatchingRows | audioset_download/Downloader.py:90-94 | with all labels known, the dispatched rows are the unquoted forms of an order-preserving subsequence containing exactly the matching loaded rows, each as often as it occurs |
| Downloader.CommandLineRunFails | download.py:40-46 | a downloader built as the command line builds it (no labels, no metadata path, a download type) fails with `ValueError` whatever the type, format, quality and records |
| Downloader.EmptyLabelListSelectsNothing | audioset_download/Downloader.py:90-92 | an empty label list selects zero rows |
| Downloader.Download | audioset_download/Downloader.py:57-101 | `ValueError` iff path None and type set; `KeyError` iff the source is valid and a requested label is unknown; on success the reported count equals the number of tasks and of actions; each action is a skip iff that row's output path exists |
| Downloader.Dispatch | audioset_download/Downloader.py:99-101 | exactly one action per kept row, in index order, the i-th being the skip-or-fetch decision for row i |
| Paths.JoinPath | audioset_download/Downloader.py:120 | the joined path ends with the last component; a relative component is appended after the directory; an absolute one replaces it |
| Downloader.OutputPath | audioset_download/Downloader.py:120 | the checked path always ends in `.wav`, whatever the format |
| Downloader.OutputPathInjective | audioset_download/Downloader.py:120 | under one root, two relative video ids share an output path iff they are equal |
| Downloader.DownloadFile | audioset_download/Downloader.py:120-127 | skip iff the output path exists; a fetch carries the row's id, start, end, the requested format and quality, and the output template `root/ytid`; the label column plays no part |
| Downloader.StemWithExtension | audioset_download/Downloader.py:120-127 | the file `yt-dlp` writes for extension `ext` is the checked path iff `ext` is `wav` |
| Downloader.ProducedPathIsChecked | audioset_download/Downloader.py:120-127 | a fetched row's produced file is the file the next run looks for iff the produced extension is `wav` |
| Downloader.RerunAfterWavRunSkipsAll | audioset_download/Downloader.py:120-124 | after a run whose fetches all produced `.wav` files, the same run again dispatches the same rows and fetches none |
| Downloader.SpeechScenario | audioset_download/Downloader.py:90-101 | rows (A: Speech), (B: Dog, Speech), (C: Cat) with "Speech" requested: A and B are dispatched in order with bare labels, C is dropped, and an empty directory ends with exactly `A.wav` and `B.wav` |
| SplitAudioset.Body | utils/split_audioset.py:33 | the body has length `max(0, len - 3)` and its i-th line is input line `i + 3` |
| SplitAudioset.BoundEnds | utils/split_audioset.py:39-40 | the first slice starts at 0 and the last ends at the body's length |
| SplitAudioset.BoundMonotone | utils/split_audioset.py:39-40 | `0 <= start_i <= end_j <= L` for `i <= j <= n`, so every slice is valid |
| SplitAudioset.SliceLength | utils/split_audioset.py:39-40 | every slice has `L / n` or `L / n + 1` lines |
| SplitAudioset.ConcatSlicesFrom | utils/split_audioset.py:44-51 | slices `i..n-1` read back in order give the body from `start_i` on |
| SplitAudioset.Chunks | utils/split_audioset.py:37-42 | `n` slices, the i-th being `body[start_i:end_i]`, whose concatenation is the body |
| SplitAudioset.FirstDifference | utils/split_audioset.py:53-56 | reports nothing iff the two line lists agree on their common prefix, otherwise the first index where they differ |
| SplitAudioset.Split | utils/split_audioset.py:29-56 | the script writes `n` files holding the body's slices; reading them back yields the body, so the length assertion holds and no differing line is reported |
| SplitAudioset.SplitUnbalancedTrain | utils/split_audioset.py:24-56 | with the script's own ten files: ten slices whose concatenation is the body, and no differing line reported |

## Left out

- CSV reading through pandas (`Downloader.py:48-51,72-87`). It covers network and file
  access and `sep=', '` parsing. Rows are given already split into columns, one record per
  line. pandas' error on a table with no data lines is not modelled.
- Retrieval failures of the class index or the metadata table: they are I/O and raise
  inside pandas.
- The `yt-dlp` process and its command-string formatting of float times
  (`Downloader.py:127`): an external program. It is kept only as the `Fetch` record, and
  its exit status is ignored as in the source.
- Start and end times are Dafny `real` values that are copied, never computed with, so float
  behaviour does not arise.
- `joblib.Parallel`, `tqdm`, `print` and warning suppression (`Downloader.py:6-8,96-103`):
  concurrency and progress output. The dispatch is a map in index order over one snapshot of
  the directory.
- `n_jobs`: stored but affects only the worker pool.
- Downloader.Dispatch: every skip-or-fetch decision sees the destination directory as it was
  before the run. Files written during the run are not seen, because whether `yt-dlp`
  succeeds is outside the model. So a second row with the same `ytid` is fetched again,
  even in a sequential run (`n_jobs=1`, the default) where the source would find the first
  row's `.wav` file and skip it. The same holds for concurrent runs.
- `os.makedirs` and `os.path.exists` (`Downloader.py:39,122`): the existing files are an
  explicit set of paths.
- The split script's file writes and reads (`split_audioset.py:26-49`): the files are the
  slices themselves.
- The split script as written stops at line 18 (`split_audioset.py:18`). `urllib3` has no
  module-level `urlopen`, so `main` raises `AttributeError` before it reads the table, and
  lines 29-56 never run. The model covers lines 29-56 as if line 18 were absent. Argument
  parsing (`split_audioset.py:8-20`) is left out; its result is never used.
- The split script's fixed `num_files = 10` is generalised to any `n >= 1`
  (`SplitAudioset.SplitUnbalancedTrain` instantiates it at ten). `n = 0` is excluded: there
  are no files, and the assertion fails on a non-empty body.
- `download.py`'s argument parsing. The `Downloader` it builds is modelled by
  `Downloader.CommandLineRunFails`, which shows that it always reaches the `ValueError` branch.
- `machine_to_display_mapping` (`Downloader.py:54`): built but never used.
