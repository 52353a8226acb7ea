/**
 * The state the KPM screen keeps between callbacks: the staged-file slot
 * `tempFileForInstall`, whether the install-mode dialog is up, which staged files are in
 * the cache directory, the top-level `globalModuleFileName`, and the trace of external
 * calls made so far. Each callback is a method that changes this state step by step
 * and is proved to append exactly the run the matching function of KpmRuns describes.
 */
module KpmScreen {
  import opened Wrappers
  import opened Strings
  import opened FormUrlCodec
  import opened ModuleId
  import opened KpmRuns

  /** The picked document: `Uri.lastPathSegment` may be null. */
  datatype Uri = Uri(lastPathSegment: Option<seq<Byte>>)

  /** The ways the install-mode dialog is left. */
  datatype DialogChoice = Dismissed | Cancelled | LoadChosen | EmbedChosen

  /** The install mode a choice starts, if any. */
  function ModeOf(choice: DialogChoice): Option<InstallMode> {
    match choice
    case Dismissed | Cancelled => None
    case LoadChosen => Some(LoadMode)
    case EmbedChosen => Some(EmbedMode)
  }

  class Screen {
    const cacheDir: string
    var tempFileForInstall: Option<StagedFile>
    var modeDialogShown: bool
    /** Paths of the staged files present in the cache directory. */
    var cacheFiles: set<string>
    var globalModuleFileName: string
    var trace: seq<Event>

    constructor (cacheDir: string)
      ensures this.cacheDir == cacheDir
      ensures tempFileForInstall == None && !modeDialogShown
      ensures cacheFiles == {} && globalModuleFileName == "" && trace == []
    {
      this.cacheDir := cacheDir;
      tempFileForInstall := None;
      modeDialogShown := false;
      cacheFiles := {};
      globalModuleFileName := "";
      trace := [];
    }

    method Emit(e: Event)
      modifies this`trace
      ensures trace == old(trace) + [e]
    {
      trace := trace + [e];
    }

    /** `tempFile.delete()`. */
    method DeleteStaged(file: StagedFile)
      modifies this`trace, this`cacheFiles
      ensures trace == old(trace) + [Delete(file.Path())]
      ensures cacheFiles == old(cacheFiles) - {file.Path()}
    {
      cacheFiles := cacheFiles - {file.Path()};
      Emit(Delete(file.Path()));
    }

    /**
     * The file picker's result callback. A result other than OK or a missing URI does
     * nothing. Otherwise the document is copied to the cache under its encoded name
     * (the file exists afterwards only if the content stream could be opened); a name
     * without `.kpm` is reported and deleted, any other is staged and the mode dialog shown.
     */
    method OnPickResult(resultOk: bool, data: Option<Uri>, streamOpened: bool)
      modifies this`tempFileForInstall, this`modeDialogShown, this`cacheFiles, this`trace
      ensures !resultOk || data.None? ==> unchanged(this)
      ensures resultOk && data.Some? ==>
        var file := StagedFile(cacheDir, StagedName(data.value.lastPathSegment));
        if EndsWith(file.name, KpmSuffix) then
          && tempFileForInstall == Some(file) && modeDialogShown && trace == old(trace)
          && cacheFiles == (if streamOpened then old(cacheFiles) + {file.Path()} else old(cacheFiles))
        else
          && tempFileForInstall == old(tempFileForInstall) && modeDialogShown == old(modeDialogShown)
          && trace == old(trace) + [Msg(InvalidFileType), Delete(file.Path())]
          && cacheFiles == old(cacheFiles) - {file.Path()}
    {
      if !resultOk {
        return;
      }
      if data.None? {
        return;
      }
      var fileName := data.value.lastPathSegment.GetOr(DefaultFileName);
      var encodedFileName := Encode(fileName);
      var tempFile := StagedFile(cacheDir, encodedFileName);
      if streamOpened {
        cacheFiles := cacheFiles + {tempFile.Path()};
      }
      if !EndsWith(tempFile.name, KpmSuffix) {
        Emit(Msg(InvalidFileType));
        DeleteStaged(tempFile);
        return;
      }
      tempFileForInstall := Some(tempFile);
      modeDialogShown := true;
    }

    /**
     * Leaving the install-mode dialog. Dismissing or cancelling deletes the staged file;
     * Load and Embed install it in that mode. Every exit empties the staged-file slot.
     */
    method OnModeDialogExit(choice: DialogChoice, mkdir: Outcome<int>, cp: Outcome<int>, load: Outcome<string>)
      modifies this`tempFileForInstall, this`modeDialogShown, this`cacheFiles, this`trace
      ensures tempFileForInstall == None && !modeDialogShown
      ensures old(tempFileForInstall).None? ==> trace == old(trace) && cacheFiles == old(cacheFiles)
      ensures old(tempFileForInstall).Some? ==>
        var file := old(tempFileForInstall).value;
        && cacheFiles == old(cacheFiles) - {file.Path()}
        && trace == old(trace) + match ModeOf(choice)
                                 case None => [Delete(file.Path())]
                                 case Some(mode) => InstallRun(file, mode, mkdir, cp, load)
    {
      modeDialogShown := false;
      var staged := tempFileForInstall;
      match choice {
        case Dismissed | Cancelled =>
          if staged.Some? {
            DeleteStaged(staged.value);
          }
        case LoadChosen =>
          if staged.Some? {
            HandleModuleInstall(staged.value, LoadMode, mkdir, cp, load);
          }
        case EmbedChosen =>
          if staged.Some? {
            HandleModuleInstall(staged.value, EmbedMode, mkdir, cp, load);
          }
      }
      tempFileForInstall := None;
    }

    /** `handleModuleInstall`: one run of InstallRun, after which the staged file is gone. */
    method HandleModuleInstall(file: StagedFile, mode: InstallMode,
                               mkdir: Outcome<int>, cp: Outcome<int>, load: Outcome<string>)
      modifies this`trace, this`cacheFiles
      ensures trace == old(trace) + InstallRun(file, mode, mkdir, cp, load)
      ensures cacheFiles == old(cacheFiles) - {file.Path()}
    {
      ExtractIdAndAttempt(file, mode, mkdir, cp, load);
      DeleteStaged(file);
      InstallRunSplits(file, mode, mkdir, cp, load);
      assert old(trace) + InstallBody(file, mode, mkdir, cp, load) + [Delete(file.Path())]
          == old(trace) + (InstallBody(file, mode, mkdir, cp, load) + [Delete(file.Path())]);
    }

    /** `handleModuleInstall` up to the final deletion: the id check, then the try block. */
    method ExtractIdAndAttempt(file: StagedFile, mode: InstallMode,
                               mkdir: Outcome<int>, cp: Outcome<int>, load: Outcome<string>)
      modifies this`trace
      ensures trace == old(trace) + InstallBody(file, mode, mkdir, cp, load)
    {
      var moduleId := ExtractModuleId(file.name);
      if moduleId.None? {
        Emit(Msg(InstallFailed));
      } else {
        TryInstall(file.Path(), moduleId.value, mode, mkdir, cp, load);
      }
    }

    /** The try block of `handleModuleInstall` and its catch. */
    method TryInstall(path: string, moduleId: string, mode: InstallMode,
                      mkdir: Outcome<int>, cp: Outcome<int>, load: Outcome<string>)
      modifies this`trace
      ensures trace == old(trace) + InstallAttempt(path, moduleId, mode, mkdir, cp, load)
    {
      var targetPath := PersistedPath(moduleId);
      var threw := false;
      label attempt: {
        if mode == EmbedMode {
          Emit(Exec(MakeKpmDir));
          if mkdir.Threw? {
            threw := true;
            break attempt;
          }
          Emit(Exec(Copy(path, targetPath)));
          if cp.Threw? {
            threw := true;
            break attempt;
          }
        }
        Emit(Load(path));
        if load.Threw? {
          threw := true;
          break attempt;
        }
        if IsErrorResult(load.value) {
          Emit(Msg(InstallFailed));
        } else {
          Emit(Refresh);
          Emit(Msg(InstallSuccess));
        }
      }
      if threw {
        Emit(Msg(InstallFailed));
      }
    }

    /** `handleModuleUninstall` for the module with this id: one run of UninstallRun. */
    method HandleModuleUninstall(moduleId: string, ls: Outcome<int>, confirm: ConfirmResult,
                                 unload: Outcome<string>, rm: Outcome<int>)
      modifies this`trace, this`globalModuleFileName
      ensures globalModuleFileName == moduleId + KpmSuffix
      ensures trace == old(trace) + UninstallRun(moduleId, ls, confirm, unload, rm)
    {
      ghost var t0 := trace;
      var moduleFileName := moduleId + KpmSuffix;
      globalModuleFileName := moduleFileName;
      var moduleFilePath := KpmDir + "/" + moduleFileName;
      assert moduleFilePath == PersistedPath(moduleId);
      Emit(Exec(List(moduleFilePath)));
      var fileExists: bool;
      if ls.Threw? {
        Emit(Msg(FailedToCheckModuleFile));
        fileExists := false;
      } else {
        fileExists := ls.value == 0;
      }
      Emit(AwaitConfirm);
      assert trace == t0 + CheckPhase(moduleId, ls);
      assert fileExists == PersistedFileListed(ls);
      if confirm != Confirmed {
        return;
      }
      TryUninstall(moduleId, moduleFilePath, fileExists, unload, rm);
      assert t0 + CheckPhase(moduleId, ls) + UnloadPhase(moduleId, fileExists, unload, rm)
          == t0 + (CheckPhase(moduleId, ls) + UnloadPhase(moduleId, fileExists, unload, rm));
    }

    /** The try block of `handleModuleUninstall`, once the user has confirmed, and its catch. */
    method TryUninstall(moduleId: string, moduleFilePath: string, fileExists: bool,
                        unload: Outcome<string>, rm: Outcome<int>)
      requires moduleFilePath == PersistedPath(moduleId)
      modifies this`trace
      ensures trace == old(trace) + UnloadPhase(moduleId, fileExists, unload, rm)
    {
      var threw := false;
      label attempt: {
        Emit(Unload(moduleId));
        if unload.Threw? {
          threw := true;
          break attempt;
        }
        if IsErrorResult(unload.value) {
          Emit(Msg(UninstallFailed));
          return;
        }
        if fileExists {
          Emit(Exec(Remove(moduleFilePath)));
          if rm.Threw? {
            threw := true;
            break attempt;
          }
        }
        Emit(Refresh);
        Emit(Msg(UninstallSuccess));
      }
      if threw {
        Emit(Msg(UninstallFailed));
      }
    }

    /** The control dialog's confirm button, once `executeControl` has returned this status. */
    method OnControlConfirm(moduleId: string, status: int)
      modifies this`trace
      ensures trace == old(trace) + ControlRun(moduleId, status)
    {
      Emit(ExecuteControl);
      if status == 0 {
        Emit(Msg(ControlSuccess));
      } else {
        Emit(Msg(ControlFailed));
      }
      Emit(LoadModuleDetail(moduleId));
    }
  }

  /**
   * A pick followed by leaving the mode dialog, whatever the choice and the outcomes:
   * afterwards no staged file is left in the cache directory that was not there before,
   * the picked file's staged copy is gone, and the slot is empty.
   */
  method PickThenLeaveDialog(screen: Screen, resultOk: bool, data: Option<Uri>, streamOpened: bool,
                             choice: DialogChoice, mkdir: Outcome<int>, cp: Outcome<int>, load: Outcome<string>)
    modifies screen
    ensures screen.cacheFiles <= old(screen.cacheFiles)
    ensures resultOk && data.Some? ==>
      StagedFile(screen.cacheDir, StagedName(data.value.lastPathSegment)).Path() !in screen.cacheFiles
    ensures screen.tempFileForInstall == None
  {
    screen.OnPickResult(resultOk, data, streamOpened);
    screen.OnModeDialogExit(choice, mkdir, cp, load);
  }
}
