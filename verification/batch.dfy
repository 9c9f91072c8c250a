/** The download loop (src/main.rs, lines 133-166): one fetch per result, in
    order, with the progress counter advanced before each fetch. The network
    and the filesystem are replaced by one `ItemWorld` per result, which says
    how each fallible step for that result turns out. */
module Batch {
  import opened Wrappers
  import opened Text
  import opened Effects
  import opened Results
  import opened Policy

  /** How the GET request for a result's link turns out: an error (whose
      message is printed), or a response with the first `content-type`
      header value if there is one and the body, `None` when reading the
      body fails. */
  datatype FetchOutcome =
    | FetchFailed(error: string)
    | Fetched(contentType: Option<seq<byte>>, body: Option<seq<byte>>)

  /** The world seen while handling one result: the fetch, whether
      `File::create` succeeds and whether `write_all` succeeds. */
  datatype ItemWorld = ItemWorld(fetch: FetchOutcome, createOk: bool, writeOk: bool)

  /** Why the whole run stops. The first two are panics of the `unwrap`s on
      line 143; the others are I/O errors that `?` returns from `main`. */
  datatype AbortReason =
    | MissingContentType
    | UnreadableContentType
    | CreateFailed(path: string)
    | BodyReadFailed(path: string)
    | WriteFailed(path: string)
  {
    predicate IsPanic() {
      MissingContentType? || UnreadableContentType?
    }
  }

  /** What handling one result came to. */
  datatype ItemOutcome =
    | FetchError(error: string)
    | Skipped(ext: string)
    | Saved(path: string, content: seq<byte>)
    | Aborted(reason: AbortReason)

  /** The extension of a fetched response whose content type is present and
      readable, and `None` in every other case. */
  function ResponseExtension(w: ItemWorld): Option<string>
  {
    if w.fetch.Fetched? && w.fetch.contentType.Some? then
      match HeaderText(w.fetch.contentType.value)
      case Some(text) => Some(Extension(text))
      case None => None
    else None
  }

  /** Lines 140-161 for one result, after the progress increment. */
  function ProcessItem(r: SearchResult, w: ItemWorld, outputDir: string, unsafeMode: bool): (o: ItemOutcome)
    // the file is created first, then the body read, then the body written:
    // each step fails the item only when the steps before it succeeded
    ensures o.Aborted? && o.reason.CreateFailed? ==> !w.createOk
    ensures o.Aborted? && o.reason.BodyReadFailed? ==> w.createOk && w.fetch.Fetched? && w.fetch.body.None?
    ensures o.Aborted? && o.reason.WriteFailed? ==> w.createOk && w.fetch.Fetched? && w.fetch.body.Some? && !w.writeOk
  {
    match w.fetch
    case FetchFailed(e) => FetchError(e)
    case Fetched(contentType, body) =>
      if contentType.None? then Aborted(MissingContentType)
      else
        match HeaderText(contentType.value)
        case None => Aborted(UnreadableContentType)
        case Some(text) =>
          var ext := Extension(text);
          if !ShouldWrite(ext, unsafeMode) then Skipped(ext)
          else
            var path := TargetPath(outputDir, r.title, ext);
            if !w.createOk then Aborted(CreateFailed(path))
            else if body.None? then Aborted(BodyReadFailed(path))
            else if !w.writeOk then Aborted(WriteFailed(path))
            else Saved(path, body.value)
  }

  /** The policy that decides each result's fate, stated against the fetch
      it got. */
  lemma ProcessItemPolicy(r: SearchResult, w: ItemWorld, outputDir: string, unsafeMode: bool, o: ItemOutcome)
    requires o == ProcessItem(r, w, outputDir, unsafeMode)
    // a failed fetch is reported and never stops the batch
    ensures o.FetchError? <==> w.fetch.FetchFailed?
    ensures w.fetch.FetchFailed? ==> o == FetchError(w.fetch.error)
    // a missing or non-ASCII content type panics
    ensures (o.Aborted? && o.reason.IsPanic()) <==> (w.fetch.Fetched? && ResponseExtension(w).None?)
    // without --unsafe, exactly the extensions off the allow-list are skipped
    ensures o.Skipped? <==>
      && ResponseExtension(w).Some?
      && !unsafeMode
      && ResponseExtension(w).value !in AllowedExtensions
    // what is saved is the whole body, under dir/title.ext, and only if accepted
    ensures o.Saved? ==>
      && ResponseExtension(w).Some?
      && (unsafeMode || ResponseExtension(w).value in AllowedExtensions)
      && o.path == outputDir + "/" + r.title + "." + ResponseExtension(w).value
      && w.fetch.body == Some(o.content)
    // an accepted response is saved unless one of the three I/O steps fails
    ensures ResponseExtension(w).Some? && ShouldWrite(ResponseExtension(w).value, unsafeMode) ==>
      (o.Saved? <==> w.createOk && w.fetch.body.Some? && w.writeOk)
  {
  }

  /** The console output and file operations one outcome stands for. The file
      is created before the body is read, so a failed body read or write
      leaves a created (empty or partly written) file behind. */
  function ItemEffects(o: ItemOutcome): seq<Effect>
  {
    match o
    case FetchError(e) => [Stdout("Error: " + e + "\n")]
    case Skipped(_) => []
    case Saved(path, content) => [CreateFile(path), WriteFile(path, content)]
    case Aborted(reason) =>
      match reason
      case BodyReadFailed(path) => [CreateFile(path)]
      case WriteFailed(path) => [CreateFile(path)]
      case _ => []
  }

  /** What one outcome shows the world: only a failed fetch prints, and it
      prints its error on one line; a file is created exactly when
      `File::create` was reached and succeeded; content reaches a file only
      for a saved outcome, and it is the whole body. */
  lemma ItemEffectsMeaning(o: ItemOutcome)
    ensures var effects := ItemEffects(o);
      && StdoutText(effects) == (if o.FetchError? then "Error: " + o.error + "\n" else "")
      && ((exists i :: 0 <= i < |effects| && effects[i].CreateFile?) <==>
            (o.Saved? || (o.Aborted? && (o.reason.BodyReadFailed? || o.reason.WriteFailed?))))
      && forall i :: 0 <= i < |effects| && effects[i].WriteFile? ==>
           o.Saved? && effects[i] == WriteFile(o.path, o.content)
  {
    var effects := ItemEffects(o);
    if |effects| == 2 {
      assert StdoutText(effects[1..]) == StdoutText(effects[1..][1..]);
    } else if |effects| == 1 {
      assert effects[1..] == [];
    }
  }

  /** Only results whose response the policy accepted touch the filesystem,
      and only at `dir/title.ext`. */
  lemma FilesOnlyForAcceptedItems(r: SearchResult, w: ItemWorld, outputDir: string, unsafeMode: bool)
    ensures var effects := ItemEffects(ProcessItem(r, w, outputDir, unsafeMode));
      forall i :: 0 <= i < |effects| && effects[i].TouchesFile() ==>
        && ResponseExtension(w).Some?
        && ShouldWrite(ResponseExtension(w).value, unsafeMode)
        && effects[i].path == TargetPath(outputDir, r.title, ResponseExtension(w).value)
  {
  }

  /** `File::create` runs before the body is read: when the body read or the
      write fails, the created file stays behind, no `WriteFile` effect is
      logged, and the whole run stops with an I/O error. */
  lemma LateFailureLeavesCreatedFile(r: SearchResult, w: ItemWorld, outputDir: string, unsafeMode: bool)
    requires w.fetch.Fetched? && ResponseExtension(w).Some?
    requires ShouldWrite(ResponseExtension(w).value, unsafeMode)
    requires w.createOk && !(w.fetch.body.Some? && w.writeOk)
    ensures var o := ProcessItem(r, w, outputDir, unsafeMode);
      && o.Aborted? && !o.reason.IsPanic()
      && ItemEffects(o) == [CreateFile(TargetPath(outputDir, r.title, ResponseExtension(w).value))]
  {
  }

  /** The effects of a sequence of outcomes, in order. */
  function Log(outcomes: seq<ItemOutcome>): seq<Effect>
    decreases |outcomes|
  {
    if |outcomes| == 0 then []
    else Log(outcomes[..|outcomes| - 1]) + ItemEffects(outcomes[|outcomes| - 1])
  }

  /** The loop's state: the progress counter, the outcome of every result
      handled so far, and the reason the run stopped, if it did. */
  datatype BatchState = BatchState(progress: nat, outcomes: seq<ItemOutcome>, abort: Option<AbortReason>)

  /** The state after the loop has looked at the first `k` results. */
  function RunPrefix(results: seq<SearchResult>, worlds: seq<ItemWorld>, outputDir: string,
                     unsafeMode: bool, k: nat): (st: BatchState)
    requires |worlds| == |results|
    requires k <= |results|
    ensures st.progress == |st.outcomes| <= k
    ensures st.abort.None? ==> |st.outcomes| == k
    decreases k
  {
    if k == 0 then BatchState(0, [], None)
    else
      var st := RunPrefix(results, worlds, outputDir, unsafeMode, k - 1);
      if st.abort.Some? then st
      else
        Advance(st, ProcessItem(results[k - 1], worlds[k - 1], outputDir, unsafeMode))
  }

  /** What the loop has done after `k` results: one count and one outcome per
      result looked at, each outcome the one `ProcessItem` gives, and a stop
      exactly at the first result that aborts. */
  lemma {:induction false} RunPrefixShape(results: seq<SearchResult>, worlds: seq<ItemWorld>, outputDir: string,
                                          unsafeMode: bool, k: nat)
    requires |worlds| == |results|
    requires k <= |results|
    ensures Shape(RunPrefix(results, worlds, outputDir, unsafeMode, k), results, worlds, outputDir, unsafeMode, k)
    decreases k
  {
    if k > 0 {
      RunPrefixShape(results, worlds, outputDir, unsafeMode, k - 1);
      var st := RunPrefix(results, worlds, outputDir, unsafeMode, k - 1);
      if st.abort.None? {
        var o := ProcessItem(results[k - 1], worlds[k - 1], outputDir, unsafeMode);
        ShapeAdvance(st, o, results, worlds, outputDir, unsafeMode, k);
        assert RunPrefix(results, worlds, outputDir, unsafeMode, k) == Advance(st, o);
      } else {
        ShapeStays(st, results, worlds, outputDir, unsafeMode, k);
      }
    }
  }

  /** What the loop has done after `k` results: one count and one outcome
      per result looked at, each outcome the one `ProcessItem` gives, only
      the last outcome an abort, and a stop exactly at the first result that
      aborts. */
  predicate Shape(st: BatchState, results: seq<SearchResult>, worlds: seq<ItemWorld>, outputDir: string,
                  unsafeMode: bool, k: nat)
    requires |worlds| == |results|
    requires k <= |results|
  {
    && st.progress == |st.outcomes| <= k
    && (forall j :: 0 <= j < |st.outcomes| ==>
          st.outcomes[j] == ProcessItem(results[j], worlds[j], outputDir, unsafeMode))
    && (forall j :: 0 <= j < |st.outcomes| - 1 ==> !st.outcomes[j].Aborted?)
    && (st.abort.None? ==> |st.outcomes| == k && forall j :: 0 <= j < k ==> !st.outcomes[j].Aborted?)
    && (st.abort.Some? ==> |st.outcomes| > 0 && st.outcomes[|st.outcomes| - 1] == Aborted(st.abort.value))
  }

  /** A turn of a loop that has not stopped keeps the shape. */
  lemma ShapeAdvance(st: BatchState, o: ItemOutcome, results: seq<SearchResult>, worlds: seq<ItemWorld>,
                     outputDir: string, unsafeMode: bool, k: nat)
    requires |worlds| == |results|
    requires 0 < k <= |results|
    requires Shape(st, results, worlds, outputDir, unsafeMode, k - 1) && st.abort.None?
    requires o == ProcessItem(results[k - 1], worlds[k - 1], outputDir, unsafeMode)
    ensures Shape(Advance(st, o), results, worlds, outputDir, unsafeMode, k)
  {
    var outcomes := st.outcomes + [o];
    forall j | 0 <= j < |outcomes|
      ensures outcomes[j] == ProcessItem(results[j], worlds[j], outputDir, unsafeMode)
      ensures j < |outcomes| - 1 ==> !outcomes[j].Aborted?
    {
      if j < |st.outcomes| {
        assert outcomes[j] == st.outcomes[j];
      }
    }
  }

  /** A loop that has stopped keeps its shape while more results go by. */
  lemma ShapeStays(st: BatchState, results: seq<SearchResult>, worlds: seq<ItemWorld>, outputDir: string,
                   unsafeMode: bool, k: nat)
    requires |worlds| == |results|
    requires 0 < k <= |results|
    requires Shape(st, results, worlds, outputDir, unsafeMode, k - 1) && st.abort.Some?
    ensures Shape(st, results, worlds, outputDir, unsafeMode, k)
  {
  }

  /** The whole loop. */
  function DownloadBatch(results: seq<SearchResult>, worlds: seq<ItemWorld>, outputDir: string,
                         unsafeMode: bool): (st: BatchState)
    requires |worlds| == |results|
    ensures st.progress == |st.outcomes| <= |results|
    ensures st.abort.None? ==> st.progress == |results|
  {
    RunPrefix(results, worlds, outputDir, unsafeMode, |results|)
  }

  /** The loop runs to the end, with the counter at the number of results,
      exactly when no result aborts; otherwise it stops right after the first
      result that aborts, that result counted. A failed fetch never stops it. */
  lemma DownloadBatchOutcome(results: seq<SearchResult>, worlds: seq<ItemWorld>, outputDir: string,
                             unsafeMode: bool)
    requires |worlds| == |results|
    ensures var st := DownloadBatch(results, worlds, outputDir, unsafeMode);
      && st.progress == |st.outcomes| <= |results|
      && (forall j :: 0 <= j < |st.outcomes| ==>
            st.outcomes[j] == ProcessItem(results[j], worlds[j], outputDir, unsafeMode))
      && (st.abort.None? <==>
            forall j :: 0 <= j < |results| ==> !ProcessItem(results[j], worlds[j], outputDir, unsafeMode).Aborted?)
      && (st.abort.None? ==> st.progress == |results|)
      && (st.abort.Some? ==>
            && 0 < st.progress
            && ProcessItem(results[st.progress - 1], worlds[st.progress - 1], outputDir, unsafeMode)
               == Aborted(st.abort.value)
            && forall j :: 0 <= j < st.progress - 1 ==>
                 !ProcessItem(results[j], worlds[j], outputDir, unsafeMode).Aborted?)
  {
    RunPrefixShape(results, worlds, outputDir, unsafeMode, |results|);
  }

  /** One turn of the loop: count the result, then record its outcome. */
  function Advance(st: BatchState, o: ItemOutcome): BatchState
  {
    BatchState(st.progress + 1, st.outcomes + [o], if o.Aborted? then Some(o.reason) else None)
  }

  /** A turn of the loop that has not stopped extends the state by one
      outcome, and a turn that aborts fixes the state of the whole loop. */
  lemma RunPrefixStep(results: seq<SearchResult>, worlds: seq<ItemWorld>, outputDir: string,
                      unsafeMode: bool, k: nat, o: ItemOutcome)
    requires |worlds| == |results|
    requires k < |results|
    requires RunPrefix(results, worlds, outputDir, unsafeMode, k).abort.None?
    requires o == ProcessItem(results[k], worlds[k], outputDir, unsafeMode)
    ensures RunPrefix(results, worlds, outputDir, unsafeMode, k + 1)
         == Advance(RunPrefix(results, worlds, outputDir, unsafeMode, k), o)
    ensures o.Aborted? ==>
      DownloadBatch(results, worlds, outputDir, unsafeMode) == RunPrefix(results, worlds, outputDir, unsafeMode, k + 1)
  {
    if o.Aborted? {
      AbortIsFinal(results, worlds, outputDir, unsafeMode, k + 1, |results|);
    }
  }

  /** The log of one more outcome is the old log followed by its effects. */
  lemma LogAppend(outcomes: seq<ItemOutcome>, o: ItemOutcome)
    ensures Log(outcomes + [o]) == Log(outcomes) + ItemEffects(o)
  {
    assert (outcomes + [o])[..|outcomes|] == outcomes;
  }

  /** Once the loop has stopped, looking at more results changes nothing. */
  lemma {:induction false} AbortIsFinal(results: seq<SearchResult>, worlds: seq<ItemWorld>, outputDir: string,
                                        unsafeMode: bool, k: nat, m: nat)
    requires |worlds| == |results|
    requires k <= m <= |results|
    requires RunPrefix(results, worlds, outputDir, unsafeMode, k).abort.Some?
    ensures RunPrefix(results, worlds, outputDir, unsafeMode, m) == RunPrefix(results, worlds, outputDir, unsafeMode, k)
    decreases m - k
  {
    if k < m {
      AbortIsFinal(results, worlds, outputDir, unsafeMode, k, m - 1);
    }
  }

  /** Without `--unsafe`, every saved file has an allow-listed extension. */
  lemma SafeModeSavesOnlyAllowed(results: seq<SearchResult>, worlds: seq<ItemWorld>, outputDir: string)
    requires |worlds| == |results|
    ensures var st := DownloadBatch(results, worlds, outputDir, false);
      forall j :: 0 <= j < |st.outcomes| && st.outcomes[j].Saved? ==>
        && ResponseExtension(worlds[j]).Some?
        && ResponseExtension(worlds[j]).value in AllowedExtensions
        && st.outcomes[j].path == TargetPath(outputDir, results[j].title, ResponseExtension(worlds[j]).value)
  {
    DownloadBatchOutcome(results, worlds, outputDir, false);
    var st := DownloadBatch(results, worlds, outputDir, false);
    forall j | 0 <= j < |st.outcomes| && st.outcomes[j].Saved?
      ensures ResponseExtension(worlds[j]).Some? && ResponseExtension(worlds[j]).value in AllowedExtensions
      ensures st.outcomes[j].path == TargetPath(outputDir, results[j].title, ResponseExtension(worlds[j]).value)
    {
      ProcessItemPolicy(results[j], worlds[j], outputDir, false, st.outcomes[j]);
    }
  }

  /** With `--unsafe`, a batch whose responses all carry a readable content
      type and whose file operations all succeed saves every result, whatever
      its extension, under `dir/title.ext`. */
  lemma UnsafeModeSavesEveryResult(results: seq<SearchResult>, worlds: seq<ItemWorld>, outputDir: string)
    requires |worlds| == |results|
    requires forall j :: 0 <= j < |worlds| ==>
      && ResponseExtension(worlds[j]).Some?
      && worlds[j].createOk && worlds[j].writeOk && worlds[j].fetch.body.Some?
    ensures var st := DownloadBatch(results, worlds, outputDir, true);
      && st.abort.None?
      && st.progress == |results|
      && forall j :: 0 <= j < |results| ==>
           st.outcomes[j] == Saved(TargetPath(outputDir, results[j].title, ResponseExtension(worlds[j]).value),
                                   worlds[j].fetch.body.value)
  {
    DownloadBatchOutcome(results, worlds, outputDir, true);
  }

  /** Failed fetches are isolated: a batch in which every fetch fails runs to
      the end, prints one error line per result and touches no file. */
  lemma FailedFetchesOnlyPrint(results: seq<SearchResult>, worlds: seq<ItemWorld>, outputDir: string,
                               unsafeMode: bool)
    requires |worlds| == |results|
    requires forall j :: 0 <= j < |worlds| ==> worlds[j].fetch.FetchFailed?
    ensures var st := DownloadBatch(results, worlds, outputDir, unsafeMode);
      && st.abort.None?
      && st.progress == |results|
      && (forall j :: 0 <= j < |results| ==> st.outcomes[j] == FetchError(worlds[j].fetch.error))
      && (forall i :: 0 <= i < |Log(st.outcomes)| ==> !Log(st.outcomes)[i].TouchesFile())
      && StdoutText(Log(st.outcomes)) == ErrorLines(worlds)
  {
    DownloadBatchOutcome(results, worlds, outputDir, unsafeMode);
    var st := DownloadBatch(results, worlds, outputDir, unsafeMode);
    LogTouchesNoFile(st.outcomes);
    LogErrorLines(st.outcomes, worlds);
  }

  /** The error lines printed for the failed fetches among `worlds`, in order. */
  function ErrorLines(worlds: seq<ItemWorld>): string
    decreases |worlds|
  {
    if |worlds| == 0 then ""
    else
      var w := worlds[|worlds| - 1];
      ErrorLines(worlds[..|worlds| - 1]) + (if w.fetch.FetchFailed? then "Error: " + w.fetch.error + "\n" else "")
  }

  /** Outcomes that are all failed fetches print exactly their error lines. */
  lemma {:induction false} LogErrorLines(outcomes: seq<ItemOutcome>, worlds: seq<ItemWorld>)
    requires |outcomes| == |worlds|
    requires forall j :: 0 <= j < |worlds| ==>
      worlds[j].fetch.FetchFailed? && outcomes[j] == FetchError(worlds[j].fetch.error)
    ensures StdoutText(Log(outcomes)) == ErrorLines(worlds)
    decreases |outcomes|
  {
    if |outcomes| > 0 {
      var n := |outcomes| - 1;
      LogErrorLines(outcomes[..n], worlds[..n]);
      StdoutTextAppend(Log(outcomes[..n]), ItemEffects(outcomes[n]));
      ItemEffectsMeaning(outcomes[n]);
    }
  }

  /** Some result of the batch was accepted by the policy and `path` is its
      `dir/title.ext`. */
  predicate AcceptedPath(results: seq<SearchResult>, worlds: seq<ItemWorld>, outputDir: string,
                         unsafeMode: bool, path: string)
  {
    exists j ::
      && 0 <= j < |results| && j < |worlds|
      && ResponseExtension(worlds[j]).Some?
      && ShouldWrite(ResponseExtension(worlds[j]).value, unsafeMode)
      && path == TargetPath(outputDir, results[j].title, ResponseExtension(worlds[j]).value)
  }

  /** Every file that `effects` touch is at `dir/title.ext` of an accepted result. */
  predicate FilesAccepted(effects: seq<Effect>, results: seq<SearchResult>, worlds: seq<ItemWorld>,
                          outputDir: string, unsafeMode: bool)
  {
    forall i :: 0 <= i < |effects| && effects[i].TouchesFile() ==>
      AcceptedPath(results, worlds, outputDir, unsafeMode, effects[i].path)
  }

  /** Every effect in the log comes from the effects of one of the outcomes. */
  lemma {:induction false} LogEffectOrigin(outcomes: seq<ItemOutcome>)
    ensures forall i :: 0 <= i < |Log(outcomes)| ==>
      exists j :: 0 <= j < |outcomes| && Log(outcomes)[i] in ItemEffects(outcomes[j])
    decreases |outcomes|
  {
    if |outcomes| > 0 {
      var n := |outcomes| - 1;
      LogEffectOrigin(outcomes[..n]);
      var before, after := Log(outcomes[..n]), ItemEffects(outcomes[n]);
      var log := Log(outcomes);
      assert log == before + after;
      forall i | 0 <= i < |log|
        ensures exists j :: 0 <= j < |outcomes| && log[i] in ItemEffects(outcomes[j])
      {
        if i < |before| {
          assert log[i] == before[i];
          var j :| 0 <= j < n && before[i] in ItemEffects(outcomes[..n][j]);
          assert outcomes[..n][j] == outcomes[j];
        } else {
          assert log[i] == after[i - |before|];
          assert log[i] in ItemEffects(outcomes[n]);
        }
      }
    } else {
      assert Log(outcomes) == [];
    }
  }

  /** The whole batch touches only files at `dir/title.ext` of results whose
      response the policy accepted. */
  lemma BatchFilesAtTargetPaths(results: seq<SearchResult>, worlds: seq<ItemWorld>, outputDir: string,
                                unsafeMode: bool)
    requires |worlds| == |results|
    ensures FilesAccepted(Log(DownloadBatch(results, worlds, outputDir, unsafeMode).outcomes),
                          results, worlds, outputDir, unsafeMode)
  {
    DownloadBatchOutcome(results, worlds, outputDir, unsafeMode);
    var st := DownloadBatch(results, worlds, outputDir, unsafeMode);
    var log := Log(st.outcomes);
    LogEffectOrigin(st.outcomes);
    forall i | 0 <= i < |log| && log[i].TouchesFile()
      ensures AcceptedPath(results, worlds, outputDir, unsafeMode, log[i].path)
    {
      var j :| 0 <= j < |st.outcomes| && log[i] in ItemEffects(st.outcomes[j]);
      ItemFileAccepted(results, worlds, outputDir, unsafeMode, j, log[i]);
    }
  }

  /** A file effect of result `j` is at `dir/title.ext` of an accepted result. */
  lemma ItemFileAccepted(results: seq<SearchResult>, worlds: seq<ItemWorld>, outputDir: string,
                         unsafeMode: bool, j: nat, e: Effect)
    requires |worlds| == |results|
    requires j < |results|
    requires e in ItemEffects(ProcessItem(results[j], worlds[j], outputDir, unsafeMode)) && e.TouchesFile()
    ensures AcceptedPath(results, worlds, outputDir, unsafeMode, e.path)
  {
    var effects := ItemEffects(ProcessItem(results[j], worlds[j], outputDir, unsafeMode));
    FilesOnlyForAcceptedItems(results[j], worlds[j], outputDir, unsafeMode);
    var m :| 0 <= m < |effects| && effects[m] == e;
  }

  /** Outcomes that neither save nor abort leave the filesystem alone. */
  lemma {:induction false} LogTouchesNoFile(outcomes: seq<ItemOutcome>)
    requires forall j :: 0 <= j < |outcomes| ==> outcomes[j].FetchError? || outcomes[j].Skipped?
    ensures forall i :: 0 <= i < |Log(outcomes)| ==> !Log(outcomes)[i].TouchesFile()
    decreases |outcomes|
  {
    if |outcomes| > 0 {
      LogTouchesNoFile(outcomes[..|outcomes| - 1]);
    }
  }

  /** A fetched response whose content-type bytes carry a visible-ASCII text
      has the extension of that text. */
  lemma {:induction false} ResponseExtensionOfHeader(w: ItemWorld, text: string)
    requires IsVisibleText(text)
    requires w.fetch.Fetched? && w.fetch.contentType == Some(HeaderBytes(text))
    ensures ResponseExtension(w) == Some(Extension(text))
  {
    HeaderTextRoundTrip(text);
  }

  /** A response whose content type reads `kind/jpeg`, as `image/jpeg`
      does, has extension `jpeg`. */
  lemma {:induction false} JpegResponseExtension(w: ItemWorld, kind: string)
    requires '/' !in kind
    requires w.fetch.Fetched? && w.fetch.contentType.Some?
    requires HeaderText(w.fetch.contentType.value) == Some(kind + "/jpeg")
    ensures ResponseExtension(w) == Some("jpeg")
  {
    assert kind + "/jpeg" == kind + "/" + "jpeg";
    ExtensionOfParts(kind, "jpeg", "");
  }

  /** A response with a readable content type whose extension the policy
      rejects is skipped, whatever the file operations would have done. */
  lemma SkippedByExtension(r: SearchResult, w: ItemWorld, outputDir: string, unsafeMode: bool)
    requires w.fetch.Fetched? && ResponseExtension(w).Some?
    requires !ShouldWrite(ResponseExtension(w).value, unsafeMode)
    ensures ProcessItem(r, w, outputDir, unsafeMode) == Skipped(ResponseExtension(w).value)
  {
  }

  /** A response with a readable content type whose extension the policy
      accepts is saved with its whole body when all file operations succeed. */
  lemma SavedByExtension(r: SearchResult, w: ItemWorld, outputDir: string, unsafeMode: bool)
    requires w.fetch.Fetched? && ResponseExtension(w).Some?
    requires ShouldWrite(ResponseExtension(w).value, unsafeMode)
    requires w.fetch.body.Some? && w.createOk && w.writeOk
    ensures ProcessItem(r, w, outputDir, unsafeMode)
         == Saved(TargetPath(outputDir, r.title, ResponseExtension(w).value), w.fetch.body.value)
  {
  }

  /** `image/jpeg` (any `kind/jpeg`) gives `jpeg`, which the allow-list
      lacks: without `--unsafe` such a response is skipped even when
      everything else works. */
  lemma {:induction false} JpegSkippedWithoutUnsafe(r: SearchResult, w: ItemWorld, outputDir: string, kind: string)
    requires '/' !in kind
    requires w.fetch.Fetched? && w.fetch.contentType.Some?
    requires HeaderText(w.fetch.contentType.value) == Some(kind + "/jpeg")
    ensures ProcessItem(r, w, outputDir, false) == Skipped("jpeg")
  {
    JpegResponseExtension(w, kind);
    SkippedByExtension(r, w, outputDir, false);
  }

  /** Under `--unsafe` the same response is saved as `title.jpeg`. */
  lemma {:induction false} JpegSavedWithUnsafe(r: SearchResult, w: ItemWorld, outputDir: string, kind: string)
    requires '/' !in kind
    requires w.fetch.Fetched? && w.fetch.contentType.Some?
    requires HeaderText(w.fetch.contentType.value) == Some(kind + "/jpeg")
    requires w.fetch.body.Some? && w.createOk && w.writeOk
    ensures ProcessItem(r, w, outputDir, true) == Saved(TargetPath(outputDir, r.title, "jpeg"), w.fetch.body.value)
  {
    JpegResponseExtension(w, kind);
    SavedByExtension(r, w, outputDir, true);
  }

  /** Lines 136-166 as written: a `for` loop whose body increments the
      counter, handles the result and leaves the loop on a panic or an
      error returned by `?`. */
  method DownloadAll(results: seq<SearchResult>, worlds: seq<ItemWorld>, outputDir: string, unsafeMode: bool)
    returns (progress: nat, outcomes: seq<ItemOutcome>, effects: seq<Effect>, abort: Option<AbortReason>)
    requires |worlds| == |results|
    ensures BatchState(progress, outcomes, abort) == DownloadBatch(results, worlds, outputDir, unsafeMode)
    ensures effects == Log(outcomes)
  {
    progress, outcomes, effects, abort := 0, [], [], None;
    var i := 0;
    while i < |results|
      invariant i <= |results|
      invariant BatchState(progress, outcomes, abort) == RunPrefix(results, worlds, outputDir, unsafeMode, i)
      invariant abort.None?
      invariant effects == Log(outcomes)
    {
      progress := progress + 1;
      var o := ProcessItem(results[i], worlds[i], outputDir, unsafeMode);
      RunPrefixStep(results, worlds, outputDir, unsafeMode, i, o);
      LogAppend(outcomes, o);
      outcomes, effects := outcomes + [o], effects + ItemEffects(o);
      if o.Aborted? {
        abort := Some(o.reason);
        return;
      }
      i := i + 1;
    }
  }
}
