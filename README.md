# KPM install and uninstall workflow, and the main screen's bottom bar

This project models two parts of the SukiSU-Ultra manager app.

The first part is the kernel-patch-module (KPM) screen. It covers:
- How a picked file is staged in the cache directory under its URL-encoded name.
- How the install-mode dialog uses the `tempFileForInstall` slot.
- How `handleModuleInstall` loads (Load mode) or persists and then loads (Embed mode) a module.
- How `handleModuleUninstall` checks for the persisted copy, asks for confirmation, unloads and removes.
- How a control result is reported.
- How `extractModuleId` recovers the module id from a staged name: it percent-decodes the name, then takes the first match of `([^/]*?)\.kpm$`.

The second part is the main activity. It covers:
- The bottom bar's rule for which destinations get an item and which item is selected.
- The `destroyListeners` handling of `onCreate`/`onDestroy`.
- The gate that installs the manager's files only when becoming the manager succeeds.

Modules:
- `Wrappers`, `Strings` (wrappers.dfy): `Option`, and `Outcome` (a call that returned a value or threw). Also prefix and suffix tests.
- `FormUrlCodec` (form_url_codec.dfy): the application/x-www-form-urlencoded format of HTML 4.01, section 17.13.4.1, as `URLEncoder.encode` and `URLDecoder.decode` apply it.
  - It works on byte strings (`seq<Byte>`, one character per byte).
  - It proves the round trip.
  - It proves exactly when decoding throws.
  - It proves that encoding keeps a `.kpm` suffix both ways.
- `ModuleId`, `KpmPattern` (module_id.dfy):
  - `ModuleIdOf` is the explicit "text between the last `/` and a trailing `.kpm`" function.
  - `Find` is a backtracking model of the regular expression with Kotlin's leftmost `find`.
  - A proof shows the two agree.
- `KpmRuns` (kpm_runs.dfy): each workflow as the sequence of events one run produces.
  - Every call out of the screen is an `Event`: the root shell, the module loader, the view model's refresh, snackbars, and file deletion.
  - A shell call records its `Command`; `CommandLine` gives the exact text handed to `su -c`.
  - What such a call returns (an exit code, a result string, or an exception) is a parameter.
  - The ordering and "never happens" lemmas are stated over these runs.
- `KpmScreen` (kpm_screen.dfy): the screen's state as a class. Its state is the staged-file slot, the dialog flag, the staged files present in the cache, `globalModuleFileName`, and the event trace.
  - It has one imperative method per callback.
  - Each method is proved to append exactly the run that `KpmRuns` describes.
- `BottomBar` (bottom_bar.dfy): the `forEach` over the destinations as a filter that builds the bar's items.
- `MainActivity` (main_activity.dfy): the activity's listener field, the theme observer's registration and the ordered external calls, as a class.

Behaviour of the code that the model follows and that a reader may not expect:
- An empty module id is not rejected. A decoded name `.kpm` gives the id `""`, and Embed mode copies to `/data/adb/kpm/.kpm`.
- An exception thrown by `mkdir` or `cp` aborts the install before the load. Only their exit codes are ignored. A failed copy that does not throw is still followed by the load.
- The `.kpm` gate after staging tests the encoded name, not the picked one. `StagingGateSeesOriginalSuffix` shows that this makes no difference.
- An exception thrown by the uninstall's `rm` shows the failure message and skips the refresh.
- After a control call the screen reloads the module's details (`onControl` is `loadModuleDetail`). It does not refresh the list.

## Model

| member | source | states |
|---|---|---|
| FormUrlCodec.Encode | manager/app/src/main/java/zako/zako/zako/ui/screen/kpm.kt:164 | `URLEncoder.encode` of a byte string: unreserved bytes kept, space as `+`, every other byte as `%` and two upper-case hex digits; never shorter than its input |
| FormUrlCodec.Decode | manager/app/src/main/java/zako/zako/zako/ui/screen/kpm.kt:363 | `URLDecoder.decode`: `+` becomes a space, `%XY` the byte with hex value XY, any other byte itself; none (the exception) when a `%` lacks two hex digits |
| FormUrlCodec.EncodeAlphabet | manager/app/src/main/java/zako/zako/zako/ui/screen/kpm.kt:164 | an encoded name uses only unreserved characters, `+` and `%`, so it never contains `/` |
| FormUrlCodec.DecodeEncode | manager/app/src/main/java/zako/zako/zako/ui/screen/kpm.kt:163-164 | decoding an encoded name gives back the picked name |
| FormUrlCodec.DecodeFailsIffMalformed | manager/app/src/main/java/zako/zako/zako/ui/screen/kpm.kt:362-369 | decoding throws exactly when some `%` is not followed by two hex digits |
| FormUrlCodec.EncodeKeepsSuffix | manager/app/src/main/java/zako/zako/zako/ui/screen/kpm.kt:164 | for a suffix of unreserved, non-hex-digit characters, the encoded name ends in it iff the original does |
| ModuleId.AfterLastSlash | manager/app/src/main/java/zako/zako/zako/ui/screen/kpm.kt:364-366 | the result is the longest suffix without `/`: a suffix, `/`-free, and preceded by `/` unless it is the whole string |
| ModuleId.ModuleIdOf | manager/app/src/main/java/zako/zako/zako/ui/screen/kpm.kt:364-366 | an id exists iff the name ends in `.kpm`; it has no `/`, is followed by `.kpm` at the end, and starts the name or follows a `/` |
| ModuleId.IdAfterLastSlash | manager/app/src/main/java/zako/zako/zako/ui/screen/kpm.kt:364-366 | for any directory part, a `/`-free name followed by `.kpm` is exactly the id of `dir/name.kpm` |
| ModuleId.ExtractModuleId | manager/app/src/main/java/zako/zako/zako/ui/screen/kpm.kt:361-371 | no id exactly when decoding throws or the decoded name does not end in `.kpm`; an id never contains `/` |
| KpmPattern.Find | manager/app/src/main/java/zako/zako/zako/ui/screen/kpm.kt:364-366 | the group of the first match of `([^/]*?)\.kpm$`: tries each start position from the left and, at each, the shortest `/`-free group followed by the final `.kpm` |
| KpmPattern.FindIsModuleId | manager/app/src/main/java/zako/zako/zako/ui/screen/kpm.kt:364-366 | the regular expression's first match's group equals `ModuleIdOf` on every string |
| KpmPattern.FindIsLeftmostMatch | manager/app/src/main/java/zako/zako/zako/ui/screen/kpm.kt:364-366 | a found group spans a `/`-free match ending at the final `.kpm`, and no earlier start position has a match |
| KpmPattern.WeirdNameExample | manager/app/src/main/java/zako/zako/zako/ui/screen/kpm.kt:364-366 | `a/b/weird.name.kpm` gives `weird.name` |
| KpmRuns.StagedName | manager/app/src/main/java/zako/zako/zako/ui/screen/kpm.kt:163-165 | the staged name (last path segment or `unknown.kpm`, encoded) never contains `/` |
| KpmRuns.StagingGateSeesOriginalSuffix | manager/app/src/main/java/zako/zako/zako/ui/screen/kpm.kt:163-173 | the gate on the encoded name passes exactly when the picked name ends in `.kpm` |
| KpmRuns.StagedIdIsPickedId | manager/app/src/main/java/zako/zako/zako/ui/screen/kpm.kt:163-164 | the id extracted from a staged name is the id of the picked name |
| KpmRuns.StagedNameHasId | manager/app/src/main/java/zako/zako/zako/ui/screen/kpm.kt:163-173 | a staged name that passes the `.kpm` gate always yields an id, so the missing-id branch at line 319 is not reached from the picker |
| KpmRuns.EmptyIdExample | manager/app/src/main/java/zako/zako/zako/ui/screen/kpm.kt:361-371 | the staged name `.kpm` yields the empty id rather than none |
| KpmRuns.MalformedEscapeExample | manager/app/src/main/java/zako/zako/zako/ui/screen/kpm.kt:362-369 | `100%.kpm` yields no id, because decoding throws |
| KpmRuns.LoadStep | manager/app/src/main/java/zako/zako/zako/ui/screen/kpm.kt:337-350 | the load of the staged path, then refresh and the success message for a non-error result, or the failure message for an error result or an exception |
| KpmRuns.InstallAttempt | manager/app/src/main/java/zako/zako/zako/ui/screen/kpm.kt:331-357 | the try block: in Embed mode `mkdir`, then `cp` to the persisted path, each stopping at the failure message if it throws, then the load step; in Load mode the load step alone |
| KpmRuns.InstallRun | manager/app/src/main/java/zako/zako/zako/ui/screen/kpm.kt:318-358 | one `handleModuleInstall`: the failure message when no id is extracted, otherwise the try block; the staged file's deletion in both cases |
| KpmRuns.EmptyIdIsNotRejected | manager/app/src/main/java/zako/zako/zako/ui/screen/kpm.kt:318-334 | with the empty id, Embed mode still copies the staged file to the persisted path built from `""` |
| KpmRuns.InstallWithoutId | manager/app/src/main/java/zako/zako/zako/ui/screen/kpm.kt:318-327 | without an id a run is the failure message and the deletion: no command, no load |
| KpmRuns.AttemptShape | manager/app/src/main/java/zako/zako/zako/ui/screen/kpm.kt:331-357 | the try block deletes nothing and loads only the staged path, at most once |
| KpmRuns.InstallDeletesStagedFileLast | manager/app/src/main/java/zako/zako/zako/ui/screen/kpm.kt:318-358 | every run ends with the staged file's deletion and deletes nothing before it |
| KpmRuns.InstallLoadsStagedFileAtMostOnce | manager/app/src/main/java/zako/zako/zako/ui/screen/kpm.kt:337 | a run loads at most once, and always from the staged path, never the persisted copy |
| KpmRuns.EmbedCopiesBeforeLoading | manager/app/src/main/java/zako/zako/zako/ui/screen/kpm.kt:329-337 | Embed mode runs `mkdir -p /data/adb/kpm`, then `cp` to `/data/adb/kpm/<id>.kpm`, then the load, in that order |
| KpmRuns.EmbedIgnoresExitCodes | manager/app/src/main/java/zako/zako/zako/ui/screen/kpm.kt:332-335 | the exit codes of `mkdir` and `cp` do not change the run |
| KpmRuns.LoadModeRunsNoCommand | manager/app/src/main/java/zako/zako/zako/ui/screen/kpm.kt:332-337 | a Load-mode run issues no shell command |
| KpmRuns.AttemptOutcome | manager/app/src/main/java/zako/zako/zako/ui/screen/kpm.kt:331-357 | the try block ends load, refresh, success message iff no step throws and the load result is not an error; otherwise it shows the failure message and never refreshes |
| KpmRuns.InstallOutcome | manager/app/src/main/java/zako/zako/zako/ui/screen/kpm.kt:337-357 | on success the run ends load, refresh, success message, deletion; otherwise it shows the failure message and never refreshes |
| KpmRuns.CheckPhase | manager/app/src/main/java/zako/zako/zako/ui/screen/kpm.kt:386-406 | `ls` of the persisted path, the warning when it throws, then the confirmation request |
| KpmRuns.UnloadPhase | manager/app/src/main/java/zako/zako/zako/ui/screen/kpm.kt:409-435 | the unload; the failure message on an error result or an exception; otherwise `rm` if the file was listed, then refresh and the success message, or the failure message if `rm` throws |
| KpmRuns.UninstallRun | manager/app/src/main/java/zako/zako/zako/ui/screen/kpm.kt:386-436 | one `handleModuleUninstall`: the check phase, then the unload phase only when the user confirmed |
| KpmRuns.UninstallChecksBeforeConfirm | manager/app/src/main/java/zako/zako/zako/ui/screen/kpm.kt:386-406 | `ls` runs first, a throwing `ls` shows the warning, then confirmation is requested; nothing before it unloads, removes or refreshes |
| KpmRuns.UninstallDeclinedChangesNothing | manager/app/src/main/java/zako/zako/zako/ui/screen/kpm.kt:401-408 | a declined confirmation ends the run with no unload, removal or refresh |
| KpmRuns.UnloadErrorStopsBeforeRemove | manager/app/src/main/java/zako/zako/zako/ui/screen/kpm.kt:410-418 | an `Error` unload result ends the run with the failure message, before any `rm` or refresh |
| KpmRuns.RemoveOnlyWhenListedAndUnloaded | manager/app/src/main/java/zako/zako/zako/ui/screen/kpm.kt:390-422 | `rm /data/adb/kpm/<id>.kpm` runs iff the user confirmed, `ls` exited 0 and the unload returned a non-error result |
| KpmRuns.UnloadOutcome | manager/app/src/main/java/zako/zako/zako/ui/screen/kpm.kt:409-435 | after confirmation, refresh and the success message happen iff the unload succeeds and, when the file was listed, `rm` does not throw; they come last |
| KpmRuns.UninstallOutcome | manager/app/src/main/java/zako/zako/zako/ui/screen/kpm.kt:408-435 | the success message appears iff the refresh does iff the uninstall succeeds, and success ends with refresh then the success message |
| KpmRuns.ControlRun | manager/app/src/main/java/zako/zako/zako/ui/screen/kpm.kt:466-474 | the control call, the success message for status 0 and the failure message otherwise, then the module-detail reload |
| KpmRuns.ControlReportsStatus | manager/app/src/main/java/zako/zako/zako/ui/screen/kpm.kt:466-474 | the control is reported as success iff its status is 0 |
| KpmScreen.Screen.constructor | manager/app/src/main/java/zako/zako/zako/ui/screen/kpm.kt:86 | the screen starts with an empty slot, no dialog and an empty trace |
| KpmScreen.Screen.DeleteStaged | manager/app/src/main/java/zako/zako/zako/ui/screen/kpm.kt:178 | deleting a staged file removes it from the cache and records the deletion |
| KpmScreen.Screen.OnPickResult | manager/app/src/main/java/zako/zako/zako/ui/screen/kpm.kt:155-185 | a non-OK result or no URI changes nothing; a non-`.kpm` staged name is reported and deleted; otherwise it fills the slot and shows the dialog |
| KpmScreen.Screen.OnModeDialogExit | manager/app/src/main/java/zako/zako/zako/ui/screen/kpm.kt:86-153 | every exit clears the slot and hides the dialog; dismiss and cancel only delete the staged file, Load and Embed run one install in that mode |
| KpmScreen.Screen.HandleModuleInstall | manager/app/src/main/java/zako/zako/zako/ui/screen/kpm.kt:310-359 | appends exactly `InstallRun` to the trace, and the staged file leaves the cache |
| KpmScreen.Screen.ExtractIdAndAttempt | manager/app/src/main/java/zako/zako/zako/ui/screen/kpm.kt:318-357 | the id check and the try block append exactly `InstallBody` (the failure message alone when there is no id) |
| KpmScreen.Screen.TryInstall | manager/app/src/main/java/zako/zako/zako/ui/screen/kpm.kt:331-357 | the try/catch appends exactly `InstallAttempt` |
| KpmScreen.Screen.HandleModuleUninstall | manager/app/src/main/java/zako/zako/zako/ui/screen/kpm.kt:373-437 | sets `globalModuleFileName` to `<id>.kpm` and appends exactly `UninstallRun` |
| KpmScreen.Screen.TryUninstall | manager/app/src/main/java/zako/zako/zako/ui/screen/kpm.kt:409-435 | the confirmed try/catch, early return included, appends exactly `UnloadPhase` |
| KpmScreen.Screen.OnControlConfirm | manager/app/src/main/java/zako/zako/zako/ui/screen/kpm.kt:465-474 | appends the control call, the status message and the module-detail reload |
| KpmScreen.PickThenLeaveDialog | manager/app/src/main/java/zako/zako/zako/ui/screen/kpm.kt:86-185 | after a pick and any exit from the dialog, the slot is empty, nothing is added to the cache and the picked staged file is gone |
| BottomBar.FullFeatured | manager/app/src/main/java/com/sukisu/ultra/ui/MainActivity.kt:145 | `fullFeatured`: manager, no newer kernel required, and root available |
| BottomBar.KpmAvailable | manager/app/src/main/java/com/sukisu/ultra/ui/MainActivity.kt:170 | the KPM version is non-empty and does not start with `Error` |
| BottomBar.IsShown | manager/app/src/main/java/com/sukisu/ultra/ui/MainActivity.kt:169-213 | the KPM entry needs an available KPM version; any entry that requires root needs `fullFeatured` |
| BottomBar.BarItems | manager/app/src/main/java/com/sukisu/ultra/ui/MainActivity.kt:168-254 | at most one item per entry; every item's destination is an entry that passes the visibility rule; an item is selected iff its route is on the back stack |
| BottomBar.BarItemsKeepOrder | manager/app/src/main/java/com/sukisu/ultra/ui/MainActivity.kt:168-171 | the items' destinations are a subsequence of the entries (order kept) |
| BottomBar.BarItemsCount | manager/app/src/main/java/com/sukisu/ultra/ui/MainActivity.kt:168-213 | each shown destination has as many items as entries, each hidden one none: nothing duplicated or lost |
| BottomBar.ShownIff | manager/app/src/main/java/com/sukisu/ultra/ui/MainActivity.kt:144-145 | with `fullFeatured = isManager && !requireNewKernel && rootAvailable`: shown iff `fullFeatured` or not root-required, and, for KPM, the version is non-empty and does not start with `Error` |
| BottomBar.OnItemClick | manager/app/src/main/java/com/sukisu/ultra/ui/MainActivity.kt:175-185 | a click navigates to the item's route iff the item is not selected |
| BottomBar.ClickNavigatesIffNotOnBackStack | manager/app/src/main/java/com/sukisu/ultra/ui/MainActivity.kt:172-177 | clicking a bar item issues no navigation exactly when its route is on the back stack |
| MainActivity.CreateEffects | manager/app/src/main/java/com/sukisu/ultra/ui/MainActivity.kt:73-90 | `onCreate`'s external calls in order: the observer registration, `install()` and `tryToInstall()` when manager, then `setContent` |
| MainActivity.Activity.InstallIfManager | manager/app/src/main/java/com/sukisu/ultra/ui/MainActivity.kt:84-88 | `install()` then `tryToInstall()` run iff `becomeManager` returned true |
| MainActivity.Activity.OnCreate | manager/app/src/main/java/com/sukisu/ultra/ui/MainActivity.kt:73-90 | registers the observer, runs the manager gate, sets the content; the listener field is left unchanged |
| MainActivity.Activity.OnCreateRegisteringListener | manager/app/src/main/java/com/sukisu/ultra/ui/MainActivity.kt:79-82 | the same but adds the unregister listener to the field |
| MainActivity.Activity.OnDestroy | manager/app/src/main/java/com/sukisu/ultra/ui/MainActivity.kt:133-138 | invokes every listener of the field in order; the observer stays registered iff the field is empty |
| MainActivity.InstallOnlyForManager | manager/app/src/main/java/com/sukisu/ultra/ui/MainActivity.kt:73-90 | the install calls appear in `onCreate`'s effects iff `becomeManager` returned true, after the registration and before `setContent` |
| MainActivity.CreateThenDestroy | manager/app/src/main/java/com/sukisu/ultra/ui/MainActivity.kt:79-82 | created and destroyed as written, an activity leaves its observer registered and never unregisters it |
| MainActivity.CreateThenDestroyRegisteringListener | manager/app/src/main/java/com/sukisu/ultra/ui/MainActivity.kt:133-138 | with the listener in the field, destroying unregisters the observer |

## Left out

- Character encoding: a name is a byte string, each model character standing for one byte of the name's UTF-8 form, and the UTF-8 step inside `URLEncoder`/`URLDecoder` is left out. Only ASCII names are therefore modelled character for character; a name holding U+0080 or above has to be given as its UTF-8 bytes.
- FormUrlCodec.Decode: a decoded `%XY` run that is not valid UTF-8 (such as `%FF.kpm`) becomes U+FFFD in Java; the model keeps the raw byte.
- FormUrlCodec.Decode: the two characters after `%` must be hex digits. This is what the Android decoder requires. Desktop Java, which also accepts a sign such as `%+F`, is not modelled.
- The regular expression's `$` also matches before one final line terminator in Java. Names ending in `.kpm` followed by a newline are not modelled.
- Shell execution (`su -c`), `loadKpmModule`/`unloadKpmModule` and `Natives.*` are foreign calls. Their results are parameters (`Outcome`). Word splitting and shell metacharacters in the unquoted `cp`/`rm` command strings are not modelled.
- `KpmViewModel` is not part of this model. `fetchModuleList`, `executeControl` and `loadModuleDetail` are trace events, and `fetchModuleList` is taken not to throw.
- The screen's coroutines (`scope.launch`) are not modelled. Each callback runs to completion, so an install racing with another dialog action, or with the polling, is not modelled.
- The 5-second polling loop of `fetchModuleList` is not modelled: it concerns timing only.
- Copying the content stream into the staged file is not modelled. A staged file is a name plus whether it exists in the cache, and `streamOpened` says whether the stream could be opened.
- Compose rendering, snackbar durations, icons, theming, the SharedPreferences notice flag, and the stale `confirmContent` text are UI only. So are the theme loaders, edge-to-edge setup, the `ContentObserver`'s callback and the navigation animations in the activity.
- `BottomBarDestination` is not part of this model. The destination entries are a parameter, with each entry's route, KPM flag and `rootRequired` flag.
- The results of `becomeManager`, `requireNewKernel`, `rootAvailable` and `getKpmVersion`, and the back stack, are parameters.
- The navigation options (popUpTo root with saved state, `launchSingleTop`, `restoreState`) are fixed, so a navigation request records only the route.
- `super.onCreate` and `super.onDestroy` are not modelled: they are framework calls.
- manager/app/src/main/java/shirkneko/zako/mksu/ui/util/module/LatestVersionInfo.kt is a data class with default values and no behaviour.

## Findings

| source | as written | input that shows it | evidently intended | confidence | as-written member | corrected member |
|---|---|---|---|---|---|---|
| manager/app/src/main/java/com/sukisu/ultra/ui/MainActivity.kt:79-82 | `onCreate` adds the unregister listener to a local `destroyListeners` that shadows the field, so `onDestroy` (133-138) iterates an empty list | any `onCreate` followed by `onDestroy` | unregister the theme observer when the activity is destroyed | not executed; high | MainActivity.CreateThenDestroy | MainActivity.CreateThenDestroyRegisteringListener |
