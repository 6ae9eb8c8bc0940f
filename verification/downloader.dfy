/** The `Downloader` class of the audioset_download package: where the metadata table comes
    from, which of its rows are kept, and what is done for each kept row.

    Divergences of the code from its own documentation, modelled as written:
    - a row is matched by SUBSTRING containment of a machine id in the raw label field, not by
      membership in the parsed label set (`Matches`);
    - the remote branch is taken when `download_type` is None, the opposite of what the error
      message asks for, so the remote URL always names "None_segments.csv" (`SelectSource`);
    - the existence check always looks for a `.wav` file whatever audio format is requested
      (`OutputPath`);
    - a row whose labels match several requested labels is kept, and fetched, once, although the
      documentation of `download_file` says it is stored once per label (`KeepRows`). */
module Downloader {
  import opened Wrappers
  import Seqs
  import Text
  import Paths
  import ClassMapping

  /** Location of the corpus's CSV tables. */
  const CsvBase: string := "http://storage.googleapis.com/us_audioset/youtube_corpus/v1/csv/"

  /** Comment lines at the top of a remote segments table (`skiprows=3`). */
  const RemoteHeaderLines: nat := 3

  /** One record of a metadata table, with its four columns already split. The label column
      is kept as the raw text of the file, quotes included. */
  datatype Row = Row(ytid: string, startSeconds: real, endSeconds: real, positiveLabels: string)

  /** A constructed `Downloader`: its parameters and the display-name-to-mid dictionary
      built from the class index when it was constructed. */
  datatype Session = Session(
    rootPath: string,
    labels: Option<seq<string>>,
    nJobs: int,
    downloadType: Option<string>,
    metadataPath: Option<string>,
    displayToMachine: map<string, string>)

  /** `Downloader.__init__`: stores the parameters and reads the class mapping from the given
      class index table. */
  function NewSession(rootPath: string, labels: Option<seq<string>>, nJobs: int,
                      downloadType: Option<string>, metadataPath: Option<string>,
                      classTable: seq<ClassMapping.ClassEntry>): (s: Session)
    ensures forall i :: 0 <= i < |classTable| ==> classTable[i].displayName in s.displayToMachine
    ensures forall k | k in s.displayToMachine :: exists i :: 0 <= i < |classTable| && classTable[i].displayName == k
  {
    Session(rootPath, labels, nJobs, downloadType, metadataPath, ClassMapping.DisplayToMachine(classTable))
  }

  /** Where the metadata table is read from. */
  datatype Source = LocalFile(path: string) | RemoteTable(url: string, skipRows: nat)

  /** Python's `f"{x}"` of an optional string. */
  function Format(x: Option<string>): string
  {
    match x
    case Some(v) => v
    case None => "None"
  }

  /** The three-way choice of the metadata source. A given `metadata_path` always wins and
      is read without skipping rows; otherwise the remote table is read, skipping three
      comment lines, only when `download_type` is None; a set `download_type` without a
      `metadata_path` raises `ValueError`. */
  function SelectSource(metadataPath: Option<string>, downloadType: Option<string>): (r: Result<Source, Exception>)
    ensures metadataPath.Some? ==> r.Success? && r.value == LocalFile(metadataPath.value)
    ensures r.Success? && r.value.RemoteTable? <==> metadataPath.None? && downloadType.None?
    ensures r.Success? && r.value.RemoteTable? ==> r.value.skipRows == 3
    ensures r.Failure? <==> metadataPath.None? && downloadType.Some?
    ensures r.Failure? ==> r.error.ValueError?
  {
    if metadataPath.Some? then Success(LocalFile(metadataPath.value))
    else if downloadType.None? then
      Success(RemoteTable(CsvBase + Format(downloadType) + "_segments.csv", RemoteHeaderLines))
    else Failure(ValueError("You must specify one of download_type or metadata_path"))
  }

  /** The inverted test means the remote branch can only ever address the table named "None":
      no selector such as "eval" or "balanced_train" reaches the URL. */
  lemma RemoteUrlNamesNone(metadataPath: Option<string>, downloadType: Option<string>)
    ensures SelectSource(metadataPath, downloadType).Success? &&
            SelectSource(metadataPath, downloadType).value.RemoteTable? ==>
            SelectSource(metadataPath, downloadType).value.url == CsvBase + "None_segments.csv"
  {
  }

  /** The records read from the source: `records` are the lines of the file at the source's
      location, one record per line; a remote table loses its first `skipRows` lines. */
  function LoadTable(src: Source, records: seq<Row>): (r: seq<Row>)
    ensures src.LocalFile? ==> r == records
    ensures src.RemoteTable? ==> |r| == if |records| <= src.skipRows then 0 else |records| - src.skipRows
    ensures src.RemoteTable? ==> forall i :: 0 <= i < |r| ==> r[i] == records[i + src.skipRows]
  {
    match src
    case LocalFile(_) => records
    case RemoteTable(_, k) => if |records| <= k then [] else records[k..]
  }

  /** `any([label in x for label in real_labels])`: some resolved machine id occurs as a
      substring of the raw label field. An empty id list matches nothing. */
  predicate Matches(field: string, ids: seq<string>)
  {
    exists i :: 0 <= i < |ids| && Text.Contains(field, ids[i])
  }

  /** The boolean-mask selection `metadata[metadata["positive_labels"].apply(...)]`: the
      matching rows, in their original order, each kept exactly as often as it occurs. */
  function KeepRows(rows: seq<Row>, ids: seq<string>): (r: seq<Row>)
    ensures |r| <= |rows|
    ensures forall i :: 0 <= i < |r| ==> Matches(r[i].positiveLabels, ids)
    ensures forall row | row in rows :: row in r <==> Matches(row.positiveLabels, ids)
    ensures forall row | row in rows && Matches(row.positiveLabels, ids) :: multiset(r)[row] == multiset(rows)[row]
    ensures Seqs.IsSubseq(r, rows)
  {
    var p := (row: Row) => Matches(row.positiveLabels, ids);
    Seqs.FilterIsSubseq(p, rows);
    var r := Seqs.Filter(p, rows);
    assert forall i :: 0 <= i < |r| ==> p(r[i]);
    assert forall row | row in r :: row in rows by {
      forall row | row in r ensures row in rows {
        assert row in multiset(r);
      }
    }
    r
  }

  /** `x.replace('"', '')` applied to the label column of one row; the other columns are kept. */
  function StripRow(row: Row): (r: Row)
    ensures r.ytid == row.ytid && r.startSeconds == row.startSeconds && r.endSeconds == row.endSeconds
    ensures '"' !in r.positiveLabels
  {
    row.(positiveLabels := Text.StripQuotes(row.positiveLabels))
  }

  /** Quote stripping of the label column of every row, in order. */
  function StripAll(rows: seq<Row>): (r: seq<Row>)
    ensures |r| == |rows|
    ensures forall i :: 0 <= i < |rows| ==> r[i] == StripRow(rows[i])
  {
    seq(|rows|, i requires 0 <= i < |rows| => StripRow(rows[i]))
  }

  /** The selection part of `download`: with no labels every row is kept; otherwise the labels
      are resolved (a missing one raises `KeyError` before any row is looked at) and the
      matching rows are kept; the label column of the kept rows is then unquoted. */
  function SelectRows(labels: Option<seq<string>>, mapping: map<string, string>, rows: seq<Row>): (r: Result<seq<Row>, Exception>)
    ensures r.Failure? <==> labels.Some? && exists i :: 0 <= i < |labels.value| && labels.value[i] !in mapping
    ensures r.Failure? ==> r.error.KeyError?
    ensures r.Success? ==> |r.value| <= |rows|
    ensures r.Success? ==> forall i :: 0 <= i < |r.value| ==> '"' !in r.value[i].positiveLabels
  {
    match labels
    case None => Success(StripAll(rows))
    case Some(ls) =>
      match ClassMapping.Resolve(mapping, ls)
      case Failure(e) => Failure(e)
      case Success(ids) => Success(StripAll(KeepRows(rows, ids)))
  }

  /** The external `yt-dlp` invocation, kept as an opaque record of what it is asked for:
      audio of `ytid` between the two times, in `format` at `quality`, written next to
      `outputStem` with the extension yt-dlp chooses. */
  datatype Command = YtDlp(ytid: string, startSeconds: real, endSeconds: real,
                           format: string, quality: int, outputStem: string)

  /** What `download_file` does for one row. */
  datatype Action = Skip(path: string) | Fetch(command: Command)

  /** The path whose existence marks a row as done: `os.path.join(root_path, ytid + ".wav")`.
      The extension is fixed, whatever format is requested. */
  function OutputPath(rootPath: string, ytid: string): (p: string)
    ensures |p| >= 4 && p[|p| - 4..] == ".wav"
  {
    Paths.JoinPath(rootPath, ytid + ".wav")
  }

  /** Different video ids (neither an absolute path) have different output paths. */
  lemma OutputPathInjective(rootPath: string, y1: string, y2: string)
    requires !Paths.IsAbsolute(y1) && !Paths.IsAbsolute(y2)
    ensures OutputPath(rootPath, y1) == OutputPath(rootPath, y2) <==> y1 == y2
  {
    var b1, b2 := y1 + ".wav", y2 + ".wav";
    Paths.JoinPathInjective(rootPath, b1, b2);
    if b1 == b2 {
      assert y1 == b1[..|y1|] && y2 == b2[..|y2|];
    }
  }

  /** `download_file`: skip the row when its output path already exists, otherwise fetch it.
      The label column plays no part in the decision or in the command. */
  function DownloadFile(rootPath: string, format: string, quality: int, existing: set<string>, row: Row): (a: Action)
    ensures a.Skip? <==> OutputPath(rootPath, row.ytid) in existing
    ensures a.Skip? ==> a.path == OutputPath(rootPath, row.ytid)
    ensures a.Fetch? ==> a.command.ytid == row.ytid && a.command.startSeconds == row.startSeconds &&
                         a.command.endSeconds == row.endSeconds
    ensures a.Fetch? ==> a.command.format == format && a.command.quality == quality
    ensures a.Fetch? ==> a.command.outputStem == Paths.JoinPath(rootPath, row.ytid)
  {
    var path := OutputPath(rootPath, row.ytid);
    if path in existing then Skip(path)
    else Fetch(YtDlp(row.ytid, row.startSeconds, row.endSeconds, format, quality, Paths.JoinPath(rootPath, row.ytid)))
  }

  /** The file yt-dlp writes for a fetched row: the `"{root/ytid}.%(ext)s"` template filled in
      with the extension `ext` of the produced audio. */
  function ProducedPath(c: Command, ext: string): string
  {
    c.outputStem + "." + ext
  }

  /** A file written as `"{root/ytid}." + ext` is the `.wav` output path of `ytid` exactly
      when `ext` is "wav". */
  lemma StemWithExtension(rootPath: string, y: string, ext: string)
    ensures Paths.JoinPath(rootPath, y) + "." + ext == OutputPath(rootPath, y) <==> ext == "wav"
  {
    var dotExt := "." + ext;
    var b1, b2 := y + dotExt, y + ".wav";
    var stem := Paths.JoinPath(rootPath, y);
    assert stem + "." + ext == stem + dotExt;
    Paths.JoinThenAppend(rootPath, y, dotExt);
    Paths.AppendKeepsAbsolute(y, dotExt, ".wav");
    Paths.JoinPathInjective(rootPath, b1, b2);
    assert Paths.JoinPath(rootPath, b2) == OutputPath(rootPath, y);
    PrefixCancel(y, "." + ext, ".wav");
    assert ".wav" == "." + "wav";
    PrefixCancel(".", ext, "wav");
  }

  lemma PrefixCancel(y: string, s1: string, s2: string)
    ensures y + s1 == y + s2 <==> s1 == s2
  {
    if y + s1 == y + s2 {
      assert s1 == (y + s1)[|y|..];
    }
  }

  /** The file a fetch produces is the file the existence check looks for exactly when the
      produced extension is "wav"; with any other format the row is fetched again on every run. */
  lemma ProducedPathIsChecked(rootPath: string, format: string, quality: int, existing: set<string>, row: Row, ext: string)
    requires DownloadFile(rootPath, format, quality, existing, row).Fetch?
    ensures ProducedPath(DownloadFile(rootPath, format, quality, existing, row).command, ext) == OutputPath(rootPath, row.ytid)
            <==> ext == "wav"
  {
    var c := DownloadFile(rootPath, format, quality, existing, row).command;
    assert c.outputStem == Paths.JoinPath(rootPath, row.ytid);
    StemWithExtension(rootPath, row.ytid, ext);
  }

  /** One action per kept row, in index order (joblib's parallel map is taken sequentially). */
  function Dispatch(rootPath: string, format: string, quality: int, existing: set<string>, tasks: seq<Row>): (r: seq<Action>)
    ensures |r| == |tasks|
    ensures forall i :: 0 <= i < |tasks| ==> r[i] == DownloadFile(rootPath, format, quality, existing, tasks[i])
  {
    seq(|tasks|, i requires 0 <= i < |tasks| => DownloadFile(rootPath, format, quality, existing, tasks[i]))
  }

  /** What a completed `download` call did: the count it printed, the rows it dispatched and
      the action taken for each. */
  datatype Report = Report(selected: nat, tasks: seq<Row>, actions: seq<Action>)

  /** `Downloader.download`: choose the source, load the records, select and unquote the rows,
      report their number and dispatch one `download_file` per row. Configuration errors come
      first, then unknown labels; either way nothing is dispatched. */
  function Download(s: Session, format: string, quality: int, records: seq<Row>, existing: set<string>): (r: Result<Report, Exception>)
    ensures r.Failure? && r.error.ValueError? <==> s.metadataPath.None? && s.downloadType.Some?
    ensures r.Failure? && r.error.KeyError? <==>
              (s.metadataPath.Some? || s.downloadType.None?) && s.labels.Some? &&
              (exists i :: 0 <= i < |s.labels.value| && s.labels.value[i] !in s.displayToMachine)
    ensures r.Success? ==> r.value.selected == |r.value.tasks| == |r.value.actions| <= |records|
    ensures r.Success? ==> forall i :: 0 <= i < |r.value.tasks| ==>
              (r.value.actions[i].Skip? <==> OutputPath(s.rootPath, r.value.tasks[i].ytid) in existing)
    ensures r.Success? ==> forall i :: 0 <= i < |r.value.tasks| ==>
              (r.value.actions[i].Fetch? ==> r.value.actions[i].command.ytid == r.value.tasks[i].ytid)
    ensures r.Success? ==> forall i :: 0 <= i < |r.value.tasks| ==> '"' !in r.value.tasks[i].positiveLabels
  {
    match SelectSource(s.metadataPath, s.downloadType)
    case Failure(e) => Failure(e)
    case Success(src) =>
      var rows := LoadTable(src, records);
      match SelectRows(s.labels, s.displayToMachine, rows)
      case Failure(e) => Failure(e)
      case Success(tasks) =>
        Success(Report(|tasks|, tasks, Dispatch(s.rootPath, format, quality, existing, tasks)))
  }

  /** With no labels requested every record of the source is dispatched, in order, with only
      its label column unquoted: all records of a local file, all but the first three of a
      remote table. */
  lemma DownloadAllWithoutLabels(s: Session, format: string, quality: int, records: seq<Row>, existing: set<string>)
    requires s.labels.None?
    requires s.metadataPath.Some? || s.downloadType.None?
    ensures Download(s, format, quality, records, existing).Success?
    ensures s.metadataPath.Some? ==>
              var tasks := Download(s, format, quality, records, existing).value.tasks;
              |tasks| == |records| && forall i :: 0 <= i < |records| ==> tasks[i] == StripRow(records[i])
    ensures s.metadataPath.None? ==>
              var tasks := Download(s, format, quality, records, existing).value.tasks;
              |tasks| == (if |records| <= 3 then 0 else |records| - 3) &&
              forall i :: 0 <= i < |tasks| ==> tasks[i] == StripRow(records[i + 3])
  {
  }

  /** The command-line entry point builds a downloader with no labels, no metadata path and
      the `--download-type` argument, which has a default and so is never None. The inverted
      test then sends every such run to the `ValueError` branch before anything is loaded. */
  lemma CommandLineRunFails(rootPath: string, nJobs: int, downloadType: string, classTable: seq<ClassMapping.ClassEntry>,
                            format: string, quality: int, records: seq<Row>, existing: set<string>)
    ensures var s := NewSession(rootPath, None, nJobs, Some(downloadType), None, classTable);
            var r := Download(s, format, quality, records, existing);
            r.Failure? && r.error.ValueError?
  {
  }

  /** With labels requested and all of them known, the dispatched rows are, in order, the
      unquoted versions of exactly those loaded rows in which some resolved id occurs. */
  lemma DownloadKeepsMatchingRows(s: Session, format: string, quality: int, records: seq<Row>, existing: set<string>, ids: seq<string>)
    requires s.metadataPath.Some? || s.downloadType.None?
    requires s.labels.Some? && |ids| == |s.labels.value|
    requires forall i :: 0 <= i < |ids| ==> s.labels.value[i] in s.displayToMachine && ids[i] == s.displayToMachine[s.labels.value[i]]
    ensures Download(s, format, quality, records, existing).Success?
    ensures var rows := LoadTable(SelectSource(s.metadataPath, s.downloadType).value, records);
            exists kept: seq<Row> ::
              && Download(s, format, quality, records, existing).value.tasks == StripAll(kept)
              && Seqs.IsSubseq(kept, rows)
              && (forall row | row in rows :: row in kept <==> Matches(row.positiveLabels, ids))
              && (forall row | row in rows && Matches(row.positiveLabels, ids) :: multiset(kept)[row] == multiset(rows)[row])
  {
    var rows := LoadTable(SelectSource(s.metadataPath, s.downloadType).value, records);
    SelectRowsResolved(s.labels.value, s.displayToMachine, rows, ids);
    var kept := KeepRows(rows, ids);
    assert Download(s, format, quality, records, existing).value.tasks == StripAll(kept);
  }

  lemma SelectRowsResolved(labels: seq<string>, mapping: map<string, string>, rows: seq<Row>, ids: seq<string>)
    requires |ids| == |labels|
    requires forall i :: 0 <= i < |ids| ==> labels[i] in mapping && ids[i] == mapping[labels[i]]
    ensures SelectRows(Some(labels), mapping, rows) == Success(StripAll(KeepRows(rows, ids)))
  {
    var res := ClassMapping.Resolve(mapping, labels);
    assert res.Success?;
    assert res.value == ids;
  }

  /** `labels=[]` is not the same as `labels=None`: `any([])` is False, so nothing is selected. */
  lemma EmptyLabelListSelectsNothing(s: Session, format: string, quality: int, records: seq<Row>, existing: set<string>)
    requires s.metadataPath.Some? || s.downloadType.None?
    requires s.labels == Some([])
    ensures Download(s, format, quality, records, existing).Success?
    ensures Download(s, format, quality, records, existing).value.selected == 0
  {
  }

  /** A label field written between double quotes matches a quote-free id exactly when its
      bare value does, and is stored as that bare value. */
  lemma QuotedFieldLikeBare(x: string, ids: seq<string>)
    requires '"' !in x
    requires forall i :: 0 <= i < |ids| ==> '"' !in ids[i]
    ensures Matches(Text.Quote(x), ids) <==> Matches(x, ids)
    ensures Text.StripQuotes(Text.Quote(x)) == x
  {
    forall i | 0 <= i < |ids|
      ensures Text.Contains(Text.Quote(x), ids[i]) <==> Text.Contains(x, ids[i])
    {
      Text.QuotedContainsIff(x, ids[i]);
    }
    Text.StripQuotesOfQuoted(x);
  }

  /** The set of files existing after a run in which every fetch succeeded and produced
      audio with extension `ext`. */
  function AfterRun(existing: set<string>, actions: seq<Action>, ext: string): (r: set<string>)
    ensures existing <= r
    ensures forall i :: 0 <= i < |actions| && actions[i].Fetch? ==> ProducedPath(actions[i].command, ext) in r
  {
    existing + set i | 0 <= i < |actions| && actions[i].Fetch? :: ProducedPath(actions[i].command, ext)
  }

  /** Resume and idempotence: after a run whose fetches all produced `.wav` files, running again
      with the same inputs dispatches the same rows and fetches none of them. */
  lemma RerunAfterWavRunSkipsAll(s: Session, format: string, quality: int, records: seq<Row>, existing: set<string>)
    requires Download(s, format, quality, records, existing).Success?
    ensures var first := Download(s, format, quality, records, existing).value;
            var second := Download(s, format, quality, records, AfterRun(existing, first.actions, "wav"));
            && second.Success?
            && second.value.tasks == first.tasks
            && forall i :: 0 <= i < |second.value.actions| ==> second.value.actions[i].Skip?
  {
    var first := Download(s, format, quality, records, existing).value;
    var after := AfterRun(existing, first.actions, "wav");
    var second := Download(s, format, quality, records, after);
    assert second.value.tasks == first.tasks;
    forall i | 0 <= i < |first.tasks|
      ensures OutputPath(s.rootPath, first.tasks[i].ytid) in after
    {
      var a := first.actions[i];
      if a.Fetch? {
        assert a == DownloadFile(s.rootPath, format, quality, existing, first.tasks[i]);
        ProducedPathIsChecked(s.rootPath, format, quality, existing, first.tasks[i], "wav");
      }
    }
  }

  /** An end-to-end run: three rows labelled Speech, Dog and Speech, and Cat; the label
      "Speech" is requested. The two rows carrying its id are dispatched in order with their
      labels unquoted, the third is dropped, and starting from an empty directory the run
      leaves exactly `A.wav` and `B.wav` when both fetches succeed. The ids are any quote-free
      strings for which the Cat field does not contain the Speech id, as `AudioSetIdsFit`
      shows of the corpus's own ids. */
  lemma SpeechScenario(speech: string, dog: string, cat: string)
    requires '"' !in speech && '"' !in dog && '"' !in cat
    requires !Text.Contains(Text.Quote(cat), speech)
    ensures var s := Session("audioset", Some(["Speech"]), 1, None, Some("local.csv"), map["Speech" := speech, "Cat" := cat]);
            var rows := [Row("A", 0.0, 10.0, Text.Quote(speech)), Row("B", 0.0, 5.0, Text.Quote(dog + "," + speech)),
                         Row("C", 0.0, 3.0, Text.Quote(cat))];
            var r := Download(s, "wav", 5, rows, {});
            && r.Success?
            && r.value.selected == 2
            && r.value.tasks == [Row("A", 0.0, 10.0, speech), Row("B", 0.0, 5.0, dog + "," + speech)]
            && AfterRun({}, r.value.actions, "wav") == {OutputPath("audioset", "A"), OutputPath("audioset", "B")}
  {
    var s := Session("audioset", Some(["Speech"]), 1, None, Some("local.csv"), map["Speech" := speech, "Cat" := cat]);
    var rows := [Row("A", 0.0, 10.0, Text.Quote(speech)), Row("B", 0.0, 5.0, Text.Quote(dog + "," + speech)),
                 Row("C", 0.0, 3.0, Text.Quote(cat))];
    ScenarioTasks(s, rows, speech, dog, cat);
    var r := Download(s, "wav", 5, rows, {});
    var acts := r.value.actions;
    assert acts[0] == DownloadFile("audioset", "wav", 5, {}, Row("A", 0.0, 10.0, speech));
    assert acts[1] == DownloadFile("audioset", "wav", 5, {}, Row("B", 0.0, 5.0, dog + "," + speech));
    StemWithExtension("audioset", "A", "wav");
    StemWithExtension("audioset", "B", "wav");
    AfterRunOfTwoFetches(acts, OutputPath("audioset", "A"), OutputPath("audioset", "B"));
  }

  lemma ScenarioTasks(s: Session, rows: seq<Row>, speech: string, dog: string, cat: string)
    requires '"' !in speech && '"' !in dog
    requires !Text.Contains(Text.Quote(cat), speech)
    requires s == Session("audioset", Some(["Speech"]), 1, None, Some("local.csv"), map["Speech" := speech, "Cat" := cat])
    requires rows == [Row("A", 0.0, 10.0, Text.Quote(speech)), Row("B", 0.0, 5.0, Text.Quote(dog + "," + speech)),
                      Row("C", 0.0, 3.0, Text.Quote(cat))]
    ensures Download(s, "wav", 5, rows, {}).Success?
    ensures Download(s, "wav", 5, rows, {}).value.tasks == [Row("A", 0.0, 10.0, speech), Row("B", 0.0, 5.0, dog + "," + speech)]
  {
    assert s.displayToMachine["Speech"] == speech;
    ScenarioSelect(s.displayToMachine, rows, speech, dog, cat);
    assert LoadTable(LocalFile("local.csv"), rows) == rows;
  }

  lemma ScenarioSelect(mapping: map<string, string>, rows: seq<Row>, speech: string, dog: string, cat: string)
    requires '"' !in speech && '"' !in dog
    requires !Text.Contains(Text.Quote(cat), speech)
    requires "Speech" in mapping && mapping["Speech"] == speech
    requires rows == [Row("A", 0.0, 10.0, Text.Quote(speech)), Row("B", 0.0, 5.0, Text.Quote(dog + "," + speech)),
                      Row("C", 0.0, 3.0, Text.Quote(cat))]
    ensures SelectRows(Some(["Speech"]), mapping, rows)
            == Success([Row("A", 0.0, 10.0, speech), Row("B", 0.0, 5.0, dog + "," + speech)])
  {
    var a, b, c := rows[0], rows[1], rows[2];
    SelectRowsResolved(["Speech"], mapping, rows, [speech]);
    ScenarioKeep(a, b, c, speech, dog);
    StripAllPair(a, b);
    StripRowOfQuoted(a, speech);
    StripRowOfQuoted(b, dog + "," + speech);
  }

  lemma AfterRunOfTwoFetches(acts: seq<Action>, p0: string, p1: string)
    requires |acts| == 2 && acts[0].Fetch? && acts[1].Fetch?
    requires ProducedPath(acts[0].command, "wav") == p0 && ProducedPath(acts[1].command, "wav") == p1
    ensures AfterRun({}, acts, "wav") == {p0, p1}
  {
  }

  /** The scenario's assumption holds of the corpus's ids for Speech and Cat. */
  lemma AudioSetIdsFit()
    ensures !Text.Contains(Text.Quote("/m/01yrx"), "/m/09x0r")
  {
    var speech := "/m/09x0r";
    assert speech[4] == '9';
    assert '9' !in Text.Quote("/m/01yrx");
    Text.MissingCharNotContained(Text.Quote("/m/01yrx"), speech, 4);
  }

  lemma ScenarioMatches(a: Row, b: Row, speech: string, dog: string)
    requires a.positiveLabels == Text.Quote(speech)
    requires b.positiveLabels == Text.Quote(dog + "," + speech)
    ensures Matches(a.positiveLabels, [speech]) && Matches(b.positiveLabels, [speech])
  {
    var ids := [speech];
    Text.ContainsInfix("\"", speech, "\"");
    assert a.positiveLabels == "\"" + speech + "\"";
    assert Text.Contains(a.positiveLabels, ids[0]);
    Text.ContainsInfix("\"" + dog + ",", speech, "\"");
    assert b.positiveLabels == "\"" + dog + "," + speech + "\"";
    assert Text.Contains(b.positiveLabels, ids[0]);
  }

  lemma ScenarioKeep(a: Row, b: Row, c: Row, speech: string, dog: string)
    requires a.positiveLabels == Text.Quote(speech)
    requires b.positiveLabels == Text.Quote(dog + "," + speech)
    requires !Text.Contains(c.positiveLabels, speech)
    ensures KeepRows([a, b, c], [speech]) == [a, b]
  {
    ScenarioMatches(a, b, speech, dog);
    var p := (row: Row) => Matches(row.positiveLabels, [speech]);
    assert p(a) && p(b) && !p(c);
    FilterKeepTwoOfThree(p, a, b, c);
  }

  lemma FilterKeepTwoOfThree<T>(p: T -> bool, a: T, b: T, c: T)
    requires p(a) && p(b) && !p(c)
    ensures Seqs.Filter(p, [a, b, c]) == [a, b]
  {
  }

  lemma StripAllPair(a: Row, b: Row)
    ensures StripAll([a, b]) == [StripRow(a), StripRow(b)]
  {
  }

  /** A row whose label field is a quoted quote-free value is stored with that bare value. */
  lemma StripRowOfQuoted(row: Row, x: string)
    requires row.positiveLabels == Text.Quote(x)
    requires '"' !in x
    ensures StripRow(row) == row.(positiveLabels := x)
  {
    Text.StripQuotesOfQuoted(x);
  }
}
