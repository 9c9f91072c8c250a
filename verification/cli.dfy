/** One invocation of the tool (src/main.rs, lines 96-175) with argument
    parsing, the environment and the network replaced by parameters. */
module Cli {
  import opened Wrappers
  import opened Effects
  import opened Query
  import opened Results
  import opened Batch
  import opened Console
  import opened Policy

  /** The `-o/--output` flag: absent, or present with the value the parser
      gives (`is_present` and `value_of` on lines 133 and 138). */
  datatype DownloadFlag = NotGiven | Given(value: Option<string>)

  /** The parsed command line. `--unsafe` counts by presence only. */
  datatype Options = Options(query: string, filetype: Option<string>, domain: Option<string>,
                             download: DownloadFlag, unsafeFlag: bool)

  /** How the single search request turns out: a failure of `send` or of
      the JSON decoding (both returned by `?`), or the decoded items. */
  datatype SearchOutcome = SearchFailed(error: string) | SearchSucceeded(items: seq<GoogleSearchItem>)

  /** How the process ends. */
  datatype Exit =
    | Completed
    | SearchError(error: string)
    | DownloadStopped(reason: AbortReason)

  /** The process exit status: 0 when `main` returns `Ok`, 1 when it returns
      an error and 101 when it panics. */
  function ExitCode(exit: Exit): (code: int)
    ensures code == 0 <==> exit.Completed?
    ensures code == 1 <==> exit.SearchError? || (exit.DownloadStopped? && !exit.reason.IsPanic())
    ensures code == 101 <==> exit.DownloadStopped? && exit.reason.IsPanic()
  {
    match exit
    case Completed => 0
    case SearchError(_) => 1
    case DownloadStopped(reason) => if reason.IsPanic() then 101 else 1
  }

  /** The directory files go to, as line 138 computes it: the flag's value,
      or `.` when the flag carries none. An empty value stays empty. The
      argument parser declares `-o` with a required value (line 86), so in a
      real run the fallback to `.` is never taken. */
  function OutputDir(flag: DownloadFlag): (dir: string)
    requires flag.Given?
    ensures flag.value.None? ==> dir == "."
    ensures flag.value.Some? ==> dir == flag.value.value
  {
    flag.value.GetOr(".")
  }

  /** What one run did: the parameters of its search request, its effects
      in order, the final progress count and how it ended. */
  datatype Report = Report(request: seq<Param>, effects: seq<Effect>, progress: nat, exit: Exit)

  /** The run: build the request, map the response, then print or download. */
  function Run(opts: Options, apiKey: string, engineId: string, search: SearchOutcome,
               worlds: seq<ItemWorld>): (report: Report)
    requires opts.download.Given? && search.SearchSucceeded? ==> |worlds| == |search.items|
    ensures report.request == SearchParams(apiKey, engineId, opts.query, opts.filetype, opts.domain)
    // a failed search ends the run before any output or download
    ensures search.SearchFailed? ==>
      report.effects == [] && report.progress == 0 && report.exit == SearchError(search.error)
    // console mode prints every result and finishes successfully
    ensures search.SearchSucceeded? && opts.download.NotGiven? ==>
      && report.effects == ConsoleEffects(MapItems(search.items))
      && report.progress == 0
      && report.exit.Completed?
    // download mode ends in success exactly when the loop ran to the end
    ensures search.SearchSucceeded? && opts.download.Given? ==>
      var st := DownloadBatch(MapItems(search.items), worlds, OutputDir(opts.download), opts.unsafeFlag);
      && report.progress == st.progress
      && report.effects == Log(st.outcomes)
      && (report.exit.Completed? <==> st.abort.None?)
      && (st.abort.Some? ==> report.exit == DownloadStopped(st.abort.value))
  {
    var request := SearchParams(apiKey, engineId, opts.query, opts.filetype, opts.domain);
    match search
    case SearchFailed(e) => Report(request, [], 0, SearchError(e))
    case SearchSucceeded(items) =>
      var results := MapItems(items);
      match opts.download
      case NotGiven => Report(request, ConsoleEffects(results), 0, Completed)
      case Given(_) =>
        var st := DownloadBatch(results, worlds, OutputDir(opts.download), opts.unsafeFlag);
        Report(request, Log(st.outcomes), st.progress,
               if st.abort.Some? then DownloadStopped(st.abort.value) else Completed)
  }

  /** Without `-o` the run writes no file and its standard output reads back
      as the search items, in order, provided no field holds a line break. */
  lemma ConsoleModeRun(opts: Options, apiKey: string, engineId: string,
                       items: seq<GoogleSearchItem>, worlds: seq<ItemWorld>)
    requires opts.download.NotGiven?
    requires forall i :: 0 <= i < |MapItems(items)| ==> SingleLine(MapItems(items)[i])
    ensures var report := Run(opts, apiKey, engineId, SearchSucceeded(items), worlds);
      && (forall i :: 0 <= i < |report.effects| ==> !report.effects[i].TouchesFile())
      && |report.effects| == |items|
      && ToItems(ParseConsole(StdoutText(report.effects))) == items
  {
    var results := MapItems(items);
    ConsoleStdout(results);
    ConsoleRoundTrip(results);
    MapItemsRoundTrip(items, results);
  }

  /** In download mode a run whose fetches all fail still counts every
      result, touches no file and exits with status 0. */
  lemma FailedFetchesExitZero(opts: Options, apiKey: string, engineId: string,
                              items: seq<GoogleSearchItem>, worlds: seq<ItemWorld>)
    requires opts.download.Given?
    requires |worlds| == |items|
    requires forall j :: 0 <= j < |worlds| ==> worlds[j].fetch.FetchFailed?
    ensures var report := Run(opts, apiKey, engineId, SearchSucceeded(items), worlds);
      && report.progress == |items|
      && ExitCode(report.exit) == 0
      && forall i :: 0 <= i < |report.effects| ==> !report.effects[i].TouchesFile()
  {
    FailedFetchesOnlyPrint(MapItems(items), worlds, OutputDir(opts.download), opts.unsafeFlag);
  }

  /** The exit status of a run is decided by its search and by the results:
      1 when the search fails; otherwise, in download mode, 0 exactly when no
      result aborts, and 101 or 1 according as the first result that aborts
      panics on its content type or fails an I/O step. */
  lemma RunExitStatus(opts: Options, apiKey: string, engineId: string, search: SearchOutcome,
                      worlds: seq<ItemWorld>)
    requires opts.download.Given? && search.SearchSucceeded? ==> |worlds| == |search.items|
    ensures var code := ExitCode(Run(opts, apiKey, engineId, search, worlds).exit);
      && (search.SearchFailed? ==> code == 1)
      && (search.SearchSucceeded? && opts.download.NotGiven? ==> code == 0)
      && (search.SearchSucceeded? && opts.download.Given? ==>
            var results, dir := MapItems(search.items), OutputDir(opts.download);
            && (code == 0 <==>
                  forall j :: 0 <= j < |results| ==> !ProcessItem(results[j], worlds[j], dir, opts.unsafeFlag).Aborted?)
            && (code != 0 ==> exists j ::
                  && 0 <= j < |results|
                  && (forall k :: 0 <= k < j ==> !ProcessItem(results[k], worlds[k], dir, opts.unsafeFlag).Aborted?)
                  && ProcessItem(results[j], worlds[j], dir, opts.unsafeFlag).Aborted?
                  && (code == 101 <==> ProcessItem(results[j], worlds[j], dir, opts.unsafeFlag).reason.IsPanic())))
  {
    if search.SearchSucceeded? && opts.download.Given? {
      var results, dir := MapItems(search.items), OutputDir(opts.download);
      DownloadBatchOutcome(results, worlds, dir, opts.unsafeFlag);
      var st := DownloadBatch(results, worlds, dir, opts.unsafeFlag);
      if st.abort.Some? {
        assert 0 <= st.progress - 1 < |results|;
      }
    }
  }

  /** The fallback of line 138 as written: were `-o` to carry no value, every
      file the run touches would lie in the current directory, its path
      starting with `./`. The parser of line 86 never produces such a flag. */
  lemma BareOutputFlagWritesHere(opts: Options, apiKey: string, engineId: string,
                                 items: seq<GoogleSearchItem>, worlds: seq<ItemWorld>)
    requires opts.download == Given(None)
    requires |worlds| == |items|
    ensures var effects := Run(opts, apiKey, engineId, SearchSucceeded(items), worlds).effects;
      forall i :: 0 <= i < |effects| && effects[i].TouchesFile() ==> "./" <= effects[i].path
  {
    var results := MapItems(items);
    BatchFilesAtTargetPaths(results, worlds, ".", opts.unsafeFlag);
    var effects := Run(opts, apiKey, engineId, SearchSucceeded(items), worlds).effects;
    forall i | 0 <= i < |effects| && effects[i].TouchesFile()
      ensures "./" <= effects[i].path
    {
      assert AcceptedPath(results, worlds, ".", opts.unsafeFlag, effects[i].path);
      var j :| 0 <= j < |results| && j < |worlds| && ResponseExtension(worlds[j]).Some?
        && effects[i].path == TargetPath(".", results[j].title, ResponseExtension(worlds[j]).value);
    }
  }
}
