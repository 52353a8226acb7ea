/**
 * The KPM screen's workflows as the sequences of events one run of each produces.
 * Every call into code outside the model (the root shell, the module loader, the
 * view model, snackbars, file deletion) is an event; what such a call returns is a
 * parameter of the run.
 */
module KpmRuns {
  import opened Wrappers
  import opened Strings
  import opened FormUrlCodec
  import opened ModuleId

  const KpmDir: string := "/data/adb/kpm"
  /** The name used when the picked document has no last path segment. */
  const DefaultFileName: seq<Byte> := "unknown.kpm"

  /** The snackbar texts, by string resource. */
  datatype Message =
    | InstallSuccess | InstallFailed | InvalidFileType | FailedToCheckModuleFile
    | UninstallSuccess | UninstallFailed | ControlSuccess | ControlFailed

  datatype Event =
    | Exec(cmd: Command)           // `su -c CommandLine(cmd)`, waited for
    | Load(path: string)           // loadKpmModule(path)
    | Unload(id: string)           // unloadKpmModule(id)
    | Refresh                      // viewModel.fetchModuleList()
    | Delete(path: string)         // File.delete() on a staged file
    | Msg(msg: Message)            // snackBarHost.showSnackbar(msg)
    | AwaitConfirm                 // confirmDialog.awaitConfirm(...)
    | ExecuteControl               // viewModel.executeControl()
    | LoadModuleDetail(id: string) // viewModel.loadModuleDetail(id)

  /** `isEmbed` of `handleModuleInstall`: false loads only, true also persists a copy. */
  datatype InstallMode = LoadMode | EmbedMode

  datatype ConfirmResult = Confirmed | Canceled

  /** `File(dir, name)`: a file in the application's cache directory. */
  datatype StagedFile = StagedFile(dir: string, name: seq<Byte>) {
    function Path(): string { dir + "/" + name }
  }

  /** `/data/adb/kpm/<id>.kpm`, where an embedded module is kept. */
  function PersistedPath(id: string): string { KpmDir + "/" + id + KpmSuffix }

  /** The shell commands run through `su -c`. */
  datatype Command = MakeKpmDir | Copy(src: string, dst: string) | List(path: string) | Remove(path: string)

  /** The command line handed to `su -c`. */
  function CommandLine(c: Command): string {
    match c
    case MakeKpmDir => "mkdir -p " + KpmDir
    case Copy(src, dst) => "cp " + src + " " + dst
    case List(path) => "ls " + path
    case Remove(path) => "rm " + path
  }

  /** The loader reports failure by a result that starts with `Error`. */
  predicate IsErrorResult(r: string) { StartsWith(r, "Error") }

  // ---------------------------------------------------------------- staging

  /** The staged file's name: the picked document's last path segment, or `unknown.kpm`, URL-encoded. */
  function StagedName(lastPathSegment: Option<seq<Byte>>): (r: seq<Byte>)
    ensures '/' !in r
  {
    EncodeAlphabet(lastPathSegment.GetOr(DefaultFileName));
    Encode(lastPathSegment.GetOr(DefaultFileName))
  }

  /** The `.kpm` gate on the encoded name lets through exactly the names that end in `.kpm`. */
  lemma StagingGateSeesOriginalSuffix(lastPathSegment: Option<seq<Byte>>)
    ensures EndsWith(StagedName(lastPathSegment), KpmSuffix) <==> EndsWith(lastPathSegment.GetOr(DefaultFileName), KpmSuffix)
  {
    var w0: seq<Byte>, w1: seq<Byte>, w2: seq<Byte>, w: seq<Byte> := ".", ".k", ".kp", KpmSuffix;
    assert w0[..0] == [] && AllKeptByEncoding(w0);
    assert w1[..1] == w0 && AllKeptByEncoding(w1);
    assert w2[..2] == w1 && AllKeptByEncoding(w2);
    assert w[..3] == w2 && AllKeptByEncoding(w);
    EncodeKeepsSuffix(lastPathSegment.GetOr(DefaultFileName), w);
  }

  /** The id taken from a staged name is the id of the picked name itself. */
  lemma StagedIdIsPickedId(lastPathSegment: Option<seq<Byte>>)
    ensures ExtractModuleId(StagedName(lastPathSegment)) == ModuleIdOf(lastPathSegment.GetOr(DefaultFileName))
  {
    DecodeEncode(lastPathSegment.GetOr(DefaultFileName));
  }

  /**
   * A staged name that passes the `.kpm` gate always yields an id, so the missing-id
   * branch of the install is never taken for a picked file.
   */
  lemma StagedNameHasId(lastPathSegment: Option<seq<Byte>>)
    requires EndsWith(StagedName(lastPathSegment), KpmSuffix)
    ensures ExtractModuleId(StagedName(lastPathSegment)).Some?
  {
    StagingGateSeesOriginalSuffix(lastPathSegment);
    StagedIdIsPickedId(lastPathSegment);
  }

  /** A staged name that decodes to just `.kpm` yields the empty id, which the install accepts. */
  lemma EmptyIdExample()
    ensures ExtractModuleId(".kpm") == Some("")
  {
    assert FormUrlCodec.Decode(".kpm") == Some(".kpm") by {
      var s: seq<Byte> := ".kpm";
      assert forall k :: 0 <= k < |s| ==> s[k] in ".kpm";
      EncodeUnreserved(s);
      DecodeEncode(s);
    }
  }

  /** A `%` not followed by two hex digits makes decoding throw, so there is no id. */
  lemma MalformedEscapeExample()
    ensures ExtractModuleId("100%.kpm") == None
  {
    var s: seq<Byte> := "100%.kpm";
    DecodeFailsIffMalformed(s);
    assert s[3] == '%' && !WellFormedEscapeAt(s, 3);
  }

  // ---------------------------------------------------------------- install

  /** `loadKpmModule(path)` and what follows it inside the try block. */
  function LoadStep(path: string, load: Outcome<string>): seq<Event> {
    [Load(path)] +
    match load
    case Threw => [Msg(InstallFailed)]
    case Returned(r) => if IsErrorResult(r) then [Msg(InstallFailed)] else [Refresh, Msg(InstallSuccess)]
  }

  /** The try block of `handleModuleInstall`, its catch included. The exit codes of mkdir and cp are not read. */
  function InstallAttempt(path: string, id: string, mode: InstallMode,
                          mkdir: Outcome<int>, cp: Outcome<int>, load: Outcome<string>): seq<Event>
  {
    match mode
    case LoadMode => LoadStep(path, load)
    case EmbedMode =>
      [Exec(MakeKpmDir)] +
      if mkdir.Threw? then [Msg(InstallFailed)]
      else
        [Exec(Copy(path, PersistedPath(id)))] +
        if cp.Threw? then [Msg(InstallFailed)] else LoadStep(path, load)
  }

  /** One run of `handleModuleInstall` on a staged file. */
  function InstallRun(file: StagedFile, mode: InstallMode,
                      mkdir: Outcome<int>, cp: Outcome<int>, load: Outcome<string>): seq<Event>
  {
    match ExtractModuleId(file.name)
    case None => [Msg(InstallFailed), Delete(file.Path())]
    case Some(id) => InstallAttempt(file.Path(), id, mode, mkdir, cp, load) + [Delete(file.Path())]
  }

  /** A run up to the deletion: the attempt, or the failure message when there is no id. */
  function InstallBody(file: StagedFile, mode: InstallMode,
                       mkdir: Outcome<int>, cp: Outcome<int>, load: Outcome<string>): seq<Event>
  {
    AttemptIfId(file.Path(), ExtractModuleId(file.name), mode, mkdir, cp, load)
  }

  /** The attempt for an id, or the failure message without one. */
  function AttemptIfId(path: string, id: Option<string>, mode: InstallMode,
                       mkdir: Outcome<int>, cp: Outcome<int>, load: Outcome<string>): seq<Event>
  {
    match id
    case None => [Msg(InstallFailed)]
    case Some(i) => InstallAttempt(path, i, mode, mkdir, cp, load)
  }

  /** The run is its body followed by the deletion. */
  lemma InstallRunSplits(file: StagedFile, mode: InstallMode,
                         mkdir: Outcome<int>, cp: Outcome<int>, load: Outcome<string>)
    ensures InstallRun(file, mode, mkdir, cp, load) == InstallBody(file, mode, mkdir, cp, load) + [Delete(file.Path())]
  {
  }

  /** When an install succeeds: an id is found, no shell step throws, and the loader returns a non-error result. */
  predicate InstallSucceeds(file: StagedFile, mode: InstallMode,
                            mkdir: Outcome<int>, cp: Outcome<int>, load: Outcome<string>)
  {
    && ExtractModuleId(file.name).Some?
    && (mode == EmbedMode ==> mkdir.Returned? && cp.Returned?)
    && load.Returned? && !IsErrorResult(load.value)
  }

  /** The empty id is not rejected: an embed of a staged `.kpm` copies it to the persisted path of "". */
  lemma EmptyIdIsNotRejected(dir: string, mkdirCode: int, cp: Outcome<int>, load: Outcome<string>)
    ensures var f := StagedFile(dir, ".kpm");
            InstallRun(f, EmbedMode, Returned(mkdirCode), cp, load)[1] == Exec(Copy(f.Path(), PersistedPath("")))
  {
    EmptyIdExample();
  }

  /** Without an id: a failure message and the deletion, and nothing else. */
  lemma InstallWithoutId(file: StagedFile, mode: InstallMode,
                         mkdir: Outcome<int>, cp: Outcome<int>, load: Outcome<string>)
    requires ExtractModuleId(file.name).None?
    ensures InstallRun(file, mode, mkdir, cp, load) == [Msg(InstallFailed), Delete(file.Path())]
  {
  }

  /** The try block neither deletes, nor loads anything but the staged path, nor loads twice. */
  lemma AttemptShape(path: string, id: string, mode: InstallMode,
                     mkdir: Outcome<int>, cp: Outcome<int>, load: Outcome<string>)
    ensures var t := InstallAttempt(path, id, mode, mkdir, cp, load);
            && (forall e :: e in t ==> !e.Delete?)
            && (forall k, k' :: 0 <= k < |t| && 0 <= k' < |t| && t[k].Load? && t[k'].Load? ==> k == k' && t[k] == Load(path))
  {
    var t := InstallAttempt(path, id, mode, mkdir, cp, load);
    var l := LoadStep(path, load);
    assert forall k :: 1 <= k < |l| ==> !l[k].Load?;
    if mode == EmbedMode && mkdir.Returned? {
      assert t == [Exec(MakeKpmDir)] + [Exec(Copy(path, PersistedPath(id)))] + (if cp.Threw? then [Msg(InstallFailed)] else l);
    }
  }

  /** Every run ends by deleting the staged file, and deletes nothing before that. */
  lemma InstallDeletesStagedFileLast(file: StagedFile, mode: InstallMode,
                                     mkdir: Outcome<int>, cp: Outcome<int>, load: Outcome<string>)
    ensures var t := InstallRun(file, mode, mkdir, cp, load);
            |t| >= 2 && t[|t| - 1] == Delete(file.Path())
            && forall k :: 0 <= k < |t| - 1 ==> !t[k].Delete?
  {
    match ExtractModuleId(file.name)
    case None =>
    case Some(id) =>
      AttemptShape(file.Path(), id, mode, mkdir, cp, load);
      DeleteOnlyAtEnd(InstallAttempt(file.Path(), id, mode, mkdir, cp, load), file.Path());
  }

  lemma DeleteOnlyAtEnd(a: seq<Event>, path: string)
    requires forall e :: e in a ==> !e.Delete?
    ensures var t := a + [Delete(path)];
            t[|t| - 1] == Delete(path) && forall k :: 0 <= k < |t| - 1 ==> !t[k].Delete?
  {
    var t := a + [Delete(path)];
    assert forall k :: 0 <= k < |t| - 1 ==> t[k] == a[k];
  }

  /** At most one load per run, always from the staged path (never from the persisted copy). */
  lemma InstallLoadsStagedFileAtMostOnce(file: StagedFile, mode: InstallMode,
                                         mkdir: Outcome<int>, cp: Outcome<int>, load: Outcome<string>)
    ensures var t := InstallRun(file, mode, mkdir, cp, load);
            forall k, k' :: 0 <= k < |t| && 0 <= k' < |t| && t[k].Load? && t[k'].Load? ==>
              k == k' && t[k] == Load(file.Path())
  {
    match ExtractModuleId(file.name)
    case None =>
    case Some(id) =>
      AttemptShape(file.Path(), id, mode, mkdir, cp, load);
      LoadsUnchangedByDelete(InstallAttempt(file.Path(), id, mode, mkdir, cp, load), file.Path());
  }

  lemma LoadsUnchangedByDelete(a: seq<Event>, path: string)
    requires forall k, k' :: 0 <= k < |a| && 0 <= k' < |a| && a[k].Load? && a[k'].Load? ==> k == k' && a[k] == Load(path)
    ensures var t := a + [Delete(path)];
            forall k, k' :: 0 <= k < |t| && 0 <= k' < |t| && t[k].Load? && t[k'].Load? ==> k == k' && t[k] == Load(path)
  {
    var t := a + [Delete(path)];
    assert forall k :: 0 <= k < |a| ==> t[k] == a[k];
  }

  /** Embed mode: mkdir, then cp to the persisted path, then the load from the staged path. */
  lemma EmbedCopiesBeforeLoading(file: StagedFile, mkdir: Outcome<int>, cp: Outcome<int>, load: Outcome<string>)
    requires ExtractModuleId(file.name).Some?
    ensures var t := InstallRun(file, EmbedMode, mkdir, cp, load);
            var id := ExtractModuleId(file.name).value;
            && t[0] == Exec(MakeKpmDir)
            && (mkdir.Returned? ==> t[1] == Exec(Copy(file.Path(), PersistedPath(id))))
            && (mkdir.Returned? && cp.Returned? ==> t[2] == Load(file.Path()))
  {
  }

  /** Embed mode does not read the exit codes of mkdir and cp. */
  lemma EmbedIgnoresExitCodes(file: StagedFile, a: int, b: int, load: Outcome<string>)
    ensures InstallRun(file, EmbedMode, Returned(a), Returned(b), load)
         == InstallRun(file, EmbedMode, Returned(0), Returned(0), load)
  {
  }

  /** Load mode runs no shell command. */
  lemma LoadModeRunsNoCommand(file: StagedFile, mkdir: Outcome<int>, cp: Outcome<int>, load: Outcome<string>)
    ensures forall e :: e in InstallRun(file, LoadMode, mkdir, cp, load) ==> !e.Exec?
  {
    match ExtractModuleId(file.name)
    case None =>
    case Some(id) =>
      assert InstallRun(file, LoadMode, mkdir, cp, load) == LoadStep(file.Path(), load) + [Delete(file.Path())];
  }

  /** Success is a refresh then the success message; any other outcome shows the failure message and does not refresh. */
  lemma InstallOutcome(file: StagedFile, mode: InstallMode,
                       mkdir: Outcome<int>, cp: Outcome<int>, load: Outcome<string>)
    ensures var t := InstallRun(file, mode, mkdir, cp, load);
            if InstallSucceeds(file, mode, mkdir, cp, load) then
              |t| >= 4 && t[|t| - 4..] == [Load(file.Path()), Refresh, Msg(InstallSuccess), Delete(file.Path())]
              && Msg(InstallFailed) !in t
            else
              Refresh !in t && Msg(InstallSuccess) !in t && Msg(InstallFailed) in t
  {
    InstallRunSplits(file, mode, mkdir, cp, load);
    OutcomeIfId(file.Path(), ExtractModuleId(file.name), mode, mkdir, cp, load);
  }

  lemma OutcomeIfId(path: string, id: Option<string>, mode: InstallMode,
                    mkdir: Outcome<int>, cp: Outcome<int>, load: Outcome<string>)
    ensures var t := AttemptIfId(path, id, mode, mkdir, cp, load) + [Delete(path)];
            if id.Some? && (mode == EmbedMode ==> mkdir.Returned? && cp.Returned?) && load.Returned? && !IsErrorResult(load.value) then
              |t| >= 4 && t[|t| - 4..] == [Load(path), Refresh, Msg(InstallSuccess), Delete(path)]
              && Msg(InstallFailed) !in t
            else
              Refresh !in t && Msg(InstallSuccess) !in t && Msg(InstallFailed) in t
  {
    match id
    case None =>
      assert AttemptIfId(path, id, mode, mkdir, cp, load) + [Delete(path)] == [Msg(InstallFailed), Delete(path)];
    case Some(i) =>
      AttemptThenDelete(path, i, mode, mkdir, cp, load);
  }

  lemma AttemptThenDelete(path: string, id: string, mode: InstallMode,
                          mkdir: Outcome<int>, cp: Outcome<int>, load: Outcome<string>)
    ensures var t := InstallAttempt(path, id, mode, mkdir, cp, load) + [Delete(path)];
            if (mode == EmbedMode ==> mkdir.Returned? && cp.Returned?) && load.Returned? && !IsErrorResult(load.value) then
              |t| >= 4 && t[|t| - 4..] == [Load(path), Refresh, Msg(InstallSuccess), Delete(path)]
              && Msg(InstallFailed) !in t
            else
              Refresh !in t && Msg(InstallSuccess) !in t && Msg(InstallFailed) in t
  {
    var b := InstallAttempt(path, id, mode, mkdir, cp, load);
    var t := b + [Delete(path)];
    AttemptOutcome(path, id, mode, mkdir, cp, load);
    if (mode == EmbedMode ==> mkdir.Returned? && cp.Returned?) && load.Returned? && !IsErrorResult(load.value) {
      assert t[|t| - 4..] == b[|b| - 3..] + [Delete(path)];
    }
  }

  /** The try block ends with load, refresh, success message exactly when nothing fails; otherwise it only reports failure. */
  lemma AttemptOutcome(path: string, id: string, mode: InstallMode,
                       mkdir: Outcome<int>, cp: Outcome<int>, load: Outcome<string>)
    ensures var a := InstallAttempt(path, id, mode, mkdir, cp, load);
            if (mode == EmbedMode ==> mkdir.Returned? && cp.Returned?) && load.Returned? && !IsErrorResult(load.value) then
              |a| >= 3 && a[|a| - 3..] == [Load(path), Refresh, Msg(InstallSuccess)] && Msg(InstallFailed) !in a
            else
              Refresh !in a && Msg(InstallSuccess) !in a && Msg(InstallFailed) in a
  {
    var l := LoadStep(path, load);
    var ok := load.Returned? && !IsErrorResult(load.value);
    assert l == if ok then [Load(path), Refresh, Msg(InstallSuccess)] else [Load(path), Msg(InstallFailed)];
    if mode == EmbedMode && mkdir.Returned? && cp.Returned? {
      var a := InstallAttempt(path, id, mode, mkdir, cp, load);
      var pre := [Exec(MakeKpmDir), Exec(Copy(path, PersistedPath(id)))];
      assert a == pre + l;
      if ok {
        assert a[|a| - 3..] == l;
      }
    }
  }

  // ---------------------------------------------------------------- uninstall

  /** `ls` exiting with 0 is the only outcome that counts as "the persisted file exists". */
  predicate PersistedFileListed(ls: Outcome<int>) { ls == Returned(0) }

  /** The events before and including the confirmation request. */
  function CheckPhase(id: string, ls: Outcome<int>): seq<Event> {
    [Exec(List(PersistedPath(id)))]
    + (if ls.Threw? then [Msg(FailedToCheckModuleFile)] else [])
    + [AwaitConfirm]
  }

  /** The try block after confirmation, its catch included. */
  function UnloadPhase(id: string, fileExists: bool, unload: Outcome<string>, rm: Outcome<int>): seq<Event> {
    [Unload(id)] +
    match unload
    case Threw => [Msg(UninstallFailed)]
    case Returned(r) =>
      if IsErrorResult(r) then [Msg(UninstallFailed)]
      else if fileExists then
        [Exec(Remove(PersistedPath(id)))] +
        if rm.Threw? then [Msg(UninstallFailed)] else [Refresh, Msg(UninstallSuccess)]
      else [Refresh, Msg(UninstallSuccess)]
  }

  /** One run of `handleModuleUninstall` for the module with this id. */
  function UninstallRun(id: string, ls: Outcome<int>, confirm: ConfirmResult,
                        unload: Outcome<string>, rm: Outcome<int>): seq<Event>
  {
    CheckPhase(id, ls)
    + if confirm == Confirmed then UnloadPhase(id, PersistedFileListed(ls), unload, rm) else []
  }

  predicate UninstallSucceeds(ls: Outcome<int>, confirm: ConfirmResult, unload: Outcome<string>, rm: Outcome<int>) {
    && confirm == Confirmed
    && unload.Returned? && !IsErrorResult(unload.value)
    && (PersistedFileListed(ls) ==> rm.Returned?)
  }

  /** A module-changing event: an unload, a refresh, or the removal of the persisted file. */
  predicate Mutates(e: Event, id: string) {
    e.Unload? || e.Refresh? || e == Exec(Remove(PersistedPath(id)))
  }

  /**
   * The `ls` check comes first and the confirmation request follows it (after a warning
   * when `ls` threw); nothing changes a module before the confirmation.
   */
  lemma UninstallChecksBeforeConfirm(id: string, ls: Outcome<int>, confirm: ConfirmResult,
                                     unload: Outcome<string>, rm: Outcome<int>)
    ensures var t := UninstallRun(id, ls, confirm, unload, rm);
            var c := if ls.Threw? then 2 else 1;
            && t[0] == Exec(List(PersistedPath(id)))
            && (ls.Threw? ==> t[1] == Msg(FailedToCheckModuleFile))
            && t[c] == AwaitConfirm
            && forall k :: 0 <= k < c ==> !Mutates(t[k], id)
  {
  }

  /** Declining the confirmation ends the run: no unload, no removal, no refresh. */
  lemma UninstallDeclinedChangesNothing(id: string, ls: Outcome<int>, unload: Outcome<string>, rm: Outcome<int>)
    ensures var t := UninstallRun(id, ls, Canceled, unload, rm);
            t[|t| - 1] == AwaitConfirm && forall e :: e in t ==> !Mutates(e, id)
  {
  }

  /** An `Error` result from the unload ends the run before any removal or refresh. */
  lemma UnloadErrorStopsBeforeRemove(id: string, ls: Outcome<int>, r: string, rm: Outcome<int>)
    requires IsErrorResult(r)
    ensures var t := UninstallRun(id, ls, Confirmed, Returned(r), rm);
            && t == CheckPhase(id, ls) + [Unload(id), Msg(UninstallFailed)]
            && Exec(Remove(PersistedPath(id))) !in t && Refresh !in t
  {
  }

  /** `rm` runs exactly when the user confirmed, `ls` exited with 0 and the unload succeeded. */
  lemma RemoveOnlyWhenListedAndUnloaded(id: string, ls: Outcome<int>, confirm: ConfirmResult,
                                        unload: Outcome<string>, rm: Outcome<int>)
    ensures Exec(Remove(PersistedPath(id))) in UninstallRun(id, ls, confirm, unload, rm)
        <==> confirm == Confirmed && PersistedFileListed(ls) && unload.Returned? && !IsErrorResult(unload.value)
  {
  }

  /** Success is a refresh followed by the success message, and happens exactly under UninstallSucceeds. */
  lemma UninstallOutcome(id: string, ls: Outcome<int>, confirm: ConfirmResult,
                         unload: Outcome<string>, rm: Outcome<int>)
    ensures var t := UninstallRun(id, ls, confirm, unload, rm);
            && (Msg(UninstallSuccess) in t <==> UninstallSucceeds(ls, confirm, unload, rm))
            && (UninstallSucceeds(ls, confirm, unload, rm) ==> t[|t| - 2..] == [Refresh, Msg(UninstallSuccess)])
            && (Refresh in t <==> UninstallSucceeds(ls, confirm, unload, rm))
  {
    if confirm == Confirmed {
      ConfirmedOutcome(id, ls, unload, rm);
    } else {
      var c := CheckPhase(id, ls);
      assert UninstallRun(id, ls, confirm, unload, rm) == c;
      assert Refresh !in c && Msg(UninstallSuccess) !in c;
    }
  }

  lemma ConfirmedOutcome(id: string, ls: Outcome<int>, unload: Outcome<string>, rm: Outcome<int>)
    ensures var t := UninstallRun(id, ls, Confirmed, unload, rm);
            var ok := UninstallSucceeds(ls, Confirmed, unload, rm);
            && (Msg(UninstallSuccess) in t <==> ok)
            && (ok ==> t[|t| - 2..] == [Refresh, Msg(UninstallSuccess)])
            && (Refresh in t <==> ok)
  {
    var c := CheckPhase(id, ls);
    assert Refresh !in c && Msg(UninstallSuccess) !in c;
    var u := UnloadPhase(id, PersistedFileListed(ls), unload, rm);
    UnloadOutcome(id, PersistedFileListed(ls), unload, rm);
    assert UninstallRun(id, ls, Confirmed, unload, rm) == c + u;
    if UninstallSucceeds(ls, Confirmed, unload, rm) {
      TailOfAppend(c, u, 2);
    }
  }

  /** After confirmation: refresh and the success message come last, and come exactly when the unload and any `rm` succeed. */
  lemma UnloadOutcome(id: string, fileExists: bool, unload: Outcome<string>, rm: Outcome<int>)
    ensures var u := UnloadPhase(id, fileExists, unload, rm);
            var ok := unload.Returned? && !IsErrorResult(unload.value) && (fileExists ==> rm.Returned?);
            && (Msg(UninstallSuccess) in u <==> ok)
            && (Refresh in u <==> ok)
            && (ok ==> |u| >= 2 && u[|u| - 2..] == [Refresh, Msg(UninstallSuccess)])
  {
    var u := UnloadPhase(id, fileExists, unload, rm);
    var done := [Refresh, Msg(UninstallSuccess)];
    if unload.Threw? || IsErrorResult(unload.value) {
      assert u == [Unload(id), Msg(UninstallFailed)];
    } else if fileExists {
      var rmEvent := Exec(Remove(PersistedPath(id)));
      if rm.Threw? {
        assert u == [Unload(id), rmEvent, Msg(UninstallFailed)];
      } else {
        assert u == [Unload(id), rmEvent] + done;
      }
    } else {
      assert u == [Unload(id)] + done;
    }
  }

  // ---------------------------------------------------------------- control

  /** The confirm button of the control dialog: run the control, report its status, reload the module's details. */
  function ControlRun(id: string, status: int): seq<Event> {
    [ExecuteControl, Msg(if status == 0 then ControlSuccess else ControlFailed), LoadModuleDetail(id)]
  }

  /** Status 0 and only status 0 is reported as success. */
  lemma ControlReportsStatus(id: string, status: int)
    ensures Msg(ControlSuccess) in ControlRun(id, status) <==> status == 0
    ensures Msg(ControlFailed) in ControlRun(id, status) <==> status != 0
  {
  }
}
