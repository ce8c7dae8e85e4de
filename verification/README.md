# SystemServices verification

A Dafny 4.11 model of the stateful cores of the SystemServices plugin, and proofs about them. The plugin
is mostly plumbing between a JSON-RPC front end and other services; what is modelled here are the places
where it keeps state of its own: the operating mode with its countdown and its settings, the log-upload
child process, the plugin registry merge, two small files (territory, key=value store), the firmware
status file and events, the network-standby cache, the notification list, the JSON-RPC client cache and
the download helpers.

Check everything with `dafny verify dfyconfig.toml`.

## How the model is laid out

| files | component | source |
|---|---|---|
| `ModeTimer`, `ModeProtocol`, `ModeTheorems`, `ModeHistory`, `ModeCrash`, `ModeService` | operating mode, countdown thread, settings, crash and restart | `plugin/cTimer.cpp`, `plugin/SystemServicesImplementation.cpp` |
| `LogUploadProtocol`, `LogUploadHistory`, `LogUploader` | log-upload child at mutex granularity | `plugin/SystemServicesImplementation.cpp` |
| `PluginRegistry`, `PluginLabels` | registry merge and library check | `plugin/platformcaps/platformcapsdata.cpp` |
| `ParameterStore`, `ParameterLaws` | key=value file | `plugin/SystemServicesImplementation.cpp` |
| `Territory`, `TerritoryFile`, `TerritoryLaws`, `TerritoryWords` | territory and region file, validation, events | `plugin/SystemServicesImplementation.cpp` |
| `FirmwareStatus`, `FirmwareReport`, `FirmwareEvents` | status file and firmware-state events | `plugin/SystemServicesImplementation.cpp` |
| `NetworkStandby` | cache against the PowerManager | `plugin/SystemServicesImplementation.cpp` |
| `Observers` | notification list | `plugin/SystemServicesImplementation.cpp` |
| `RpcClients` | client cache with re-entrant activation | `plugin/platformcaps/platformcapsdatarpc.cpp` |
| `Downloads` | curl buffer, download percentage | `plugin/SystemServicesHelper.cpp` |
| `Text`, `Wrappers` | string search, getline, Option | |

Code that updates fields is a class whose methods are proved against functions on values; the theorems are
about those functions, mostly over whole runs. Calls into other processes and the file system are
parameters: whether a bus call succeeds, what a fork returns, whether a file exists or can be written.

## What the proofs found

Where the code differs from what its comments or documentation suggest, the model follows the code.

- Starting a countdown move-assigns a std::thread. `cTimer::stop` never makes the old handle
  non-joinable, so a timed request ends the process exactly when an earlier countdown of the same process
  was begun and did not run out (`ModeHistory.TerminatesExactly`). After one early stop the process can
  never count down again (`ModeTheorems.SpentForGood`).
- The comment at plugin/SystemServicesImplementation.cpp:2842-2844 says that a negative duration keeps
  the mode until the next call. A restart does not keep it: the stored duration is 0, and 0 means NORMAL
  (`ModeTheorems.IndefiniteModeIsLost`, exact condition in `ModeTheorems.RestartKeepsMode`).
- A duration of d takes d + 1 callbacks (`ModeTheorems.CountdownIsExact`).
- `success` is true for every recognised mode. The mode asked for is reached exactly when it is NORMAL, or
  when the duration is not 0 and the bus call succeeds (`ModeTheorems.SuccessIsTrueExactly`). When the call
  that ends a mode fails, the daemon stays in the mode and no repeated request for NORMAL reaches it
  (`ModeTheorems.FailedReturnIsNotRepaired`).
- Plugin versions are narrowed to eight bits, so 256 is recorded as 0 (`PluginRegistry.VersionWraps`).
- Two overlapping UploadLogsAsync calls can lose a child (`LogUploadProtocol.OverlapLosesAChild`, exact
  cause in `LogUploadProtocol.LossExplained`). Unless another child gets the same pid it is never reaped
  (`LogUploadProtocol.LostIsNeverReaped`).
- The laws of the key=value store hold exactly for parameter names without `=` and newline, and the round
  trip also needs that no stale first line hides a later one (`ParameterLaws.RoundTripExactly`). It fails on
  a file with two lines for the parameter (`ParameterLaws.StaleFirstLine`), which writes of clean names never
  make; it comes from another writer or from a name with a newline (`ParameterLaws.NewlineMakesTwoLines`).
- The old region of a territory event can be one that was dropped earlier
  (`TerritoryLaws.DroppedRegionReappears`, exactly when in `TerritoryLaws.OldRegionExactly`).
- REQ-CFG-002 promises ISO 3166-1 validation of the territory. The code searches for the territory in a
  string of codes separated by blanks, so `W A` is accepted, since the string begins with `ABW AFG`
  (`TerritoryWords.BlankIsAccepted`). Accepted territories without a blank are exactly the codes, and `Cub`
  and `uba` because of the one longer word, `Cuba` (`TerritoryWords.AcceptedExactly`,
  `TerritoryWords.AcceptedIsCodeExactly`). The bound of 1100 on the position never matters: the string has
  1094 characters.
- A status line whose value is just `1` does not defer the reboot
  (`FirmwareStatus.SingleOneIsNotEnough`).
- A network-standby change notified between a get's call and its assignment is overwritten, and gets keep
  returning the old value (`NetworkStandby.SplitGetLosesChange`, exactly when and until when in
  `NetworkStandby.AgreementLostExactly`).

## Model

| member | source | states |
|---|---|---|
| ModeTimer.CTimer.constructor | plugin/cTimer.cpp:26-30 | a new timer is not cleared, has no interval and no thread |
| ModeTimer.CTimer.SetInterval | plugin/cTimer.cpp:98-102 | stores callback and interval |
| ModeTimer.CTimer.Start | plugin/cTimer.cpp:61-69 | refused without interval and callback; otherwise lowers the flag and adds one thread behind a joinable handle, which must not have been joinable before |
| ModeTimer.CTimer.Stop | plugin/cTimer.cpp:75-78 | raises the flag and leaves handle and thread as they are |
| ModeTimer.CTimer.Detach | plugin/cTimer.cpp:80-83 | needs a joinable handle and makes it non-joinable |
| ModeService.OperatingMode.StartModeTimer | plugin/SystemServicesImplementation.cpp:770-776 | ends the process exactly over a joinable handle once the timer has an interval or callback, before anything is written; otherwise starts the countdown, if it has one, and then stores it |
| ModeService.OperatingMode.StopModeTimer | plugin/SystemServicesImplementation.cpp:778-786 | clears the countdown in memory and in the settings and raises the flag |
| ModeService.OperatingMode.SwitchTo | plugin/SystemServicesImplementation.cpp:2822-2828 | first half of a mode change: mode, timer and stored duration |
| ModeService.OperatingMode.AnnounceAndStore | plugin/SystemServicesImplementation.cpp:2830-2881 | second half: bus call, fallback to NORMAL, marker file and settings, with every intermediate world |
| ModeService.OperatingMode.ChangeMode | plugin/SystemServicesImplementation.cpp:2822-2881 | both halves of a request that is not ignored follow the protocol write by write |
| ModeService.OperatingMode.SetMode | plugin/SystemServicesImplementation.cpp:2797-2889 | follows the protocol write by write; success says only that the mode was recognised |
| ModeService.OperatingMode.UpdateDuration | plugin/SystemServicesImplementation.cpp:788-810 | one callback follows the protocol: count down, or stop, detach and return to NORMAL |
| ModeService.OperatingMode.WakeUp | plugin/cTimer.cpp:44-56 | one round of the thread function: it leaves when the flag is raised before or after the callback |
| ModeService.OperatingMode.TimerFunction | plugin/cTimer.cpp:44-56 | undisturbed, the thread makes remaining + 1 callbacks, leaves NORMAL behind and ends |
| ModeService.OperatingMode.Configure | plugin/SystemServicesImplementation.cpp:365-393 | boot replays the stored mode and duration, or sets NORMAL on first boot |
| ModeProtocol.SetModeKeepsConsistency | plugin/SystemServicesImplementation.cpp:2797-2889 | every outcome of a request satisfies the mode invariant and every world on the way holds recognised, non-negative settings |
| ModeProtocol.WakeKeepsConsistency | plugin/SystemServicesImplementation.cpp:788-810 | a waking thread never ends the process (detach finds a joinable handle) and keeps the invariant |
| ModeProtocol.RunsStayConsistent | plugin/SystemServicesImplementation.cpp:356-393 | over all runs with bus failures, crashes, terminations and restarts: mode is one of three, a countdown means a ticking thread and a special mode, NORMAL means none, settings and marker file equal the state in memory, at most one thread lives |
| ModeTheorems.CrashRecovery | plugin/SystemServicesImplementation.cpp:369-393 | after a crash between any two writes of a request or a callback, and any number of crashed boots, the mode is NORMAL, the one before or the one requested, with a running countdown unless NORMAL |
| ModeCrash.WritesAreOrdered | plugin/SystemServicesImplementation.cpp:2820-2881 | a request cut after k writes leaves exactly this: duration from the first write, daemon from the second, marker file from the third, mode from the fourth |
| ModeCrash.MarkerDisagreesExactly | plugin/SystemServicesImplementation.cpp:2858-2878 | marker file and stored mode disagree only after the third write of a request that enters or leaves WAREHOUSE |
| ModeCrash.CrashedRequestExactly | plugin/SystemServicesImplementation.cpp:365-393 | mode and remaining time after a crash at any write of a request and a good restart, told from the request and the number of writes |
| ModeCrash.CrashedCallbackExactly | plugin/SystemServicesImplementation.cpp:788-810 | after a crash inside a callback and a good restart the second is gone iff it was written |
| ModeCrash.RestartExactly | plugin/SystemServicesImplementation.cpp:365-393 | for any settings at all: a restart resumes a special mode with a duration if the bus call succeeds, else it is NORMAL; an unrecognised stored mode leaves no mode and touches nothing |
| ModeCrash.SecondConfigureIsIdle | plugin/SystemServicesImplementation.cpp:365-393 | configuring a plugin that is up changes nothing |
| ModeTheorems.RestartKeepsMode | plugin/SystemServicesImplementation.cpp:381-393 | in every run a restart keeps the mode iff it is NORMAL, or has time left and the restart's bus call succeeds; it keeps the remaining time iff there is none or the call succeeds |
| ModeTheorems.IndefiniteModeIsLost | plugin/SystemServicesImplementation.cpp:2842-2844 | a special mode set with a negative duration on a healthy system is reached with 0 remaining, and NORMAL after a restart |
| ModeTheorems.SuccessIsTrueExactly | plugin/SystemServicesImplementation.cpp:2808-2856 | from any state a request reported as success reaches its mode iff that is NORMAL, or the duration is not 0 and the bus call succeeds |
| ModeHistory.HandleTellsHistory | plugin/cTimer.cpp:61-83 | in every run the handle is joinable iff some countdown was begun in this process and none has run out since |
| ModeHistory.TerminatesExactly | plugin/cTimer.cpp:61-69 | in every run an event ends the process iff it is a timed request while a countdown begun in this process has not run out; a waking thread never does |
| ModeCrash.CallbackEndsExactly | plugin/SystemServicesImplementation.cpp:788-810 | a callback ends the process iff the time is up and there is no handle to detach |
| ModeCrash.UnarmedTimerNeverStarts | plugin/cTimer.cpp:61-69 | before a callback is set a request reaches its mode but starts no thread and never ends the process |
| ModeTheorems.InterruptionSpendsTimer | plugin/SystemServicesImplementation.cpp:2820-2828 | an effective request during a countdown ends the process if timed and otherwise leaves a stopped timer with a joinable handle |
| ModeTheorems.SpentForGood | plugin/cTimer.cpp:61-78 | after an early stop no run of the process counts down again, and it survives only without timed requests |
| ModeTheorems.StoppedWakeOnlyLeaves | plugin/cTimer.cpp:50-52 | the wake-up of a stopped thread ends it and leaves mode, countdown, flag, handle, settings and daemon as they were |
| ModeTheorems.StoppedThreadLeaves | plugin/cTimer.cpp:44-56 | over every run that the process survives after an early stop, a thread lives at the end iff one lived and none has woken up |
| ModeTheorems.CountdownIsExact | plugin/SystemServicesImplementation.cpp:788-810 | after k callbacks d - k seconds remain with all else unchanged; callback d + 1 gives NORMAL and ends the thread, and later wake-ups change nothing |
| ModeTheorems.TimedRequestRunsItsCourse | plugin/SystemServicesImplementation.cpp:2797-2889 | a timed request that finds no joinable handle holds its mode for its duration and then ends in NORMAL with a reusable handle |
| ModeTheorems.RequestInsideCallback | plugin/cTimer.cpp:44-56 | a request between any callback and its flag check leaves two threads counting down iff the countdown has just run out, the request is timed and its bus call succeeds |
| ModeHistory.DaemonAgreesExactly | plugin/SystemServicesImplementation.cpp:2832-2856 | in every run the daemon is in the plugin's mode iff the last call to it succeeded or found it in NORMAL |
| ModeTheorems.SpecialModesAreShared | plugin/SystemServicesImplementation.cpp:2832-2856 | in no state of any run is the plugin in EAS or WAREHOUSE while the daemon is elsewhere |
| ModeCrash.SilentBusKeepsDaemon | plugin/SystemServicesImplementation.cpp:2832-2856 | while every bus call fails no run moves the daemon |
| ModeTheorems.FailedReturnIsNotRepaired | plugin/SystemServicesImplementation.cpp:2808-2856 | after a failed return to NORMAL any number of requests for NORMAL, in either form, leaves the daemon in the old mode |
| LogUploader.UploadLogs.AbortLogUpload | plugin/SystemServicesImplementation.cpp:1013-1057 | reaps the stored child, forgets it and announces the abort, or does nothing |
| LogUploader.UploadLogs.StoreChild | plugin/SystemServicesImplementation.cpp:1005-1007 | the fork section stores the new pid over whatever is there |
| LogUploader.UploadLogs.UploadLogsAsync | plugin/SystemServicesImplementation.cpp:992-1011 | undisturbed, the previous child is reaped, none is lost, the new one is stored, and success is reported even without one |
| LogUploader.UploadLogs.OnLogUpload | plugin/SystemServicesImplementation.cpp:3227-3250 | announces the mapped status of the stored child, reaps and forgets it |
| LogUploader.UploadLogs.OnSystemPowerStateChanged | plugin/SystemServicesImplementation.cpp:2891-2911 | light sleep from ON may start an upload, deep sleep leaves no child, other changes touch nothing |
| LogUploadProtocol.ChildrenAreConserved | plugin/SystemServicesImplementation.cpp:992-1057 | over every interleaving forked = reaped + lost + stored as multisets, and the terminal events are one per reaped child in order |
| LogUploadHistory.UploadsAreTold | plugin/SystemServicesImplementation.cpp:992-1057 | over every interleaving the events with child and status, and the children started, reaped and lost, all in order, told from the sections alone: a completion carries its own status, every other reaping section an abort |
| LogUploadHistory.UndisturbedUpload | plugin/SystemServicesImplementation.cpp:992-1011 | the sections of an undisturbed UploadLogsAsync abort the stored child, if any, then store the new one |
| LogUploadHistory.UndisturbedDeepSleep | plugin/SystemServicesImplementation.cpp:2896-2911 | the sections of the undisturbed DEEP_SLEEP handler abort the stored child, if any |
| LogUploadProtocol.SerialRunsLoseNothing | plugin/SystemServicesImplementation.cpp:992-1011 | if no two uploads overlap nothing is lost and the unreaped children are exactly the stored pid |
| LogUploadProtocol.LastPidMeaning | plugin/SystemServicesImplementation.cpp:992-1057 | the pid left by a history is the last child started that nothing reaped or replaced |
| LogUploadProtocol.LossExplained | plugin/SystemServicesImplementation.cpp:1000-1006 | a fork loses a child iff another upload started one, still unreaped, since the thread last knew of none |
| LogUploadProtocol.OverlapLosesAChild | plugin/SystemServicesImplementation.cpp:994-1006 | two overlapping uploads that saw no child lose the first one |
| LogUploadProtocol.LostIsNeverReaped | plugin/SystemServicesImplementation.cpp:992-1057 | a lost child is reaped neither before nor in any continuation, as long as all forked pids differ |
| PluginRegistry.VerifyLibraries | plugin/platformcaps/platformcapsdata.cpp:527-550 | verified iff every library file exists |
| PluginRegistry.AddDevicePlugins | plugin/platformcaps/platformcapsdata.cpp:467-485 | first loop: the removal list is the names switched off, the map holds the first usable device entries |
| PluginRegistry.GetAvailablePlugins | plugin/platformcaps/platformcapsdata.cpp:467-525 | the merged map gives each name the eight-bit version of its source entry and holds no other name |
| PluginLabels.AvailableExactly | plugin/platformcaps/platformcapsdata.cpp:467-525 | a name is available iff a device entry offers it, or a generic one does and no device entry has it with enabled false; an entry offers its name iff it has version and libraries, all files there (absolute paths as they stand), and enabled is not false |
| PluginLabels.AllSwitchedOff | plugin/platformcaps/platformcapsdata.cpp:472-501 | a name whose entries are all switched off is never available |
| PluginLabels.VersionExactly | plugin/platformcaps/platformcapsdata.cpp:482-521 | the version is that of the first entry that offers the name, of the device list if it has one |
| PluginRegistry.FirstUsableIsFirst | plugin/platformcaps/platformcapsdata.cpp:482-483 | first-come insertion finds the first enabled, complete entry whose libraries exist, and nothing iff there is none |
| PluginRegistry.DeviceEntryWins | plugin/platformcaps/platformcapsdata.cpp:472-510 | a usable device entry decides, also against a removal of the same name |
| PluginRegistry.GenericEntryCounts | plugin/platformcaps/platformcapsdata.cpp:497-521 | without one, the first usable generic entry decides iff the device list does not switch the name off |
| PluginRegistry.VersionWraps | plugin/platformcaps/platformcapsdata.cpp:482-483 | a version written as a decimal number below 2^31 is recorded modulo 256, the range of the map's uint8_t |
| PluginLabels.NumbersAreRead | plugin/platformcaps/platformcapsdata.cpp:482-483 | atoi reads a number behind blanks and one sign up to the first character that is no digit |
| PluginLabels.NoNumberIsZero | plugin/platformcaps/platformcapsdata.cpp:482-483 | without a digit there it gives 0 |
| ParameterStore.ParameterFile.WriteParameters | plugin/SystemServicesImplementation.cpp:868-933 | the new file text, the result, the update flag and the old flag, in every case including an unwritable file and a line that has the value already |
| ParameterStore.ParameterFile.ReadParameters | plugin/SystemServicesImplementation.cpp:936-990 | succeeds iff the first line for the parameter is a boolean, and keeps the caller's value otherwise |
| ParameterLaws.RoundTripExactly | plugin/SystemServicesImplementation.cpp:868-990 | for every file, name and value: a read after a write gives the value iff the name is clean and no differing first line precedes an equal one |
| ParameterLaws.StaleFirstLine | plugin/SystemServicesImplementation.cpp:884-891 | the input that fails the round trip: with the other value in the first line and the value in the second, the write changes nothing and the read returns the other value |
| ParameterLaws.NewlineMakesTwoLines | plugin/SystemServicesImplementation.cpp:910-929 | one write to an absent file under a name with a newline makes exactly that file |
| ParameterLaws.OtherLinesKept | plugin/SystemServicesImplementation.cpp:908-929 | all other lines keep content and order iff the name is clean |
| ParameterLaws.LinesKeepTheirPlace | plugin/SystemServicesImplementation.cpp:895-929 | a write that is not idle gives every line for the name the value, leaves the others in place, and adds one at the end if there was none |
| ParameterLaws.OneLineFile | plugin/SystemServicesImplementation.cpp:910-929 | the text that the first write puts in an absent file, and what it reads as |
| ParameterLaws.AssignsExactly | plugin/SystemServicesImplementation.cpp:878-883 | a line assigns the text behind its first equals sign to the name before it |
| Text.JoinAfterSplit | plugin/SystemServicesImplementation.cpp:877-926 | the lines of any text make it up again, but for a newline at its end |
| ParameterLaws.RepeatedWriteIsIdle | plugin/SystemServicesImplementation.cpp:884-891 | a repeated write changes nothing and reports no update iff the name is clean |
| ParameterLaws.WritesKeepOneLineEach | plugin/SystemServicesImplementation.cpp:868-933 | files made by writes of clean names have at most one line per parameter |
| ParameterLaws.ReadsLastWritten | plugin/SystemServicesImplementation.cpp:868-990 | such a file is a map: reading any name gives the last value written to it, or nothing |
| ParameterLaws.OldFlagIsLastWritten | plugin/SystemServicesImplementation.cpp:884-903 | in such a file a write reports as old flag the last value written to the name when it differs, and the caller's own otherwise |
| ParameterLaws.ReplacedFlagIsLast | plugin/SystemServicesImplementation.cpp:895-902 | of the replaced lines the last one with a boolean gives the old flag |
| ParameterLaws.NoFlagReplaced | plugin/SystemServicesImplementation.cpp:895-902 | without one it is the caller's own |
| ParameterLaws.NameWithEqualsDuplicates | plugin/SystemServicesImplementation.cpp:878-918 | writing a name with `=` keeps one line per parameter iff the part before it has no line yet |
| Territory.IsStrAlphaUpper | plugin/SystemServicesImplementation.cpp:2133-2152 | true iff non-empty and all upper case; with the unsigned bound wrapped the loop still reads no further than the terminator |
| Territory.IsRegionValid | plugin/SystemServicesImplementation.cpp:2154-2170 | accepts exactly two upper-case letters, optionally with a dash and two or three more |
| Territory.TerritoryService.ReadTerritoryFromFile | plugin/SystemServicesImplementation.cpp:2082-2131 | what is in memory after reading any file, present or absent, complete or corrupted |
| Territory.TerritoryService.WriteTerritory | plugin/SystemServicesImplementation.cpp:2519-2537 | the file text, or the old file when it cannot be opened |
| Territory.TerritoryService.SetTerritory | plugin/SystemServicesImplementation.cpp:2464-2517 | the new file, memory, event and reply for every input |
| Territory.TerritoryService.GetTerritory | plugin/SystemServicesImplementation.cpp:2172-2184 | starts from empty memory and returns what the file gives |
| TerritoryFile.GetExactly | plugin/SystemServicesImplementation.cpp:2082-2131 | for every text: a get returns a territory iff the first line's field is accepted and the second line is empty or its field is a region; then it returns that pair, and otherwise nothing at all |
| TerritoryFile.CorruptedRegionClearsBoth | plugin/SystemServicesImplementation.cpp:2098-2104 | a second line that is no region spoils the territory as well |
| TerritoryFile.SetAnnouncesExactly | plugin/SystemServicesImplementation.cpp:2464-2517 | for every text: the old pair that a set announces, empty over a corrupted file |
| TerritoryFile.NoFile | plugin/SystemServicesImplementation.cpp:2117-2120 | without a file a get returns nothing and a set announces what is left in memory |
| TerritoryFile.RefusedSetKeepsFile | plugin/SystemServicesImplementation.cpp:2464-2517 | a set that is refused or cannot write keeps file and events; without a territory it keeps everything |
| TerritoryFile.FieldMeaning | plugin/SystemServicesImplementation.cpp:2072-2080 | the field is the text behind the first colon, empty without one |
| TerritoryFile.SecondLineMeaning | plugin/SystemServicesImplementation.cpp:2088-2096 | the second line is the one behind the first newline; a text without one is read twice over |
| TerritoryFile.RegionIsCountryAndPart | plugin/SystemServicesImplementation.cpp:2154-2170 | a region is two upper-case letters, alone or with two or three behind a dash |
| TerritoryFile.WrittenText | plugin/SystemServicesImplementation.cpp:2519-2537 | the written file in full, with its two tags |
| TerritoryLaws.RoundTrip | plugin/SystemServicesImplementation.cpp:2172-2184 | after a successful set a get returns exactly the pair, whatever the file held before |
| TerritoryLaws.GetIsValid | plugin/SystemServicesImplementation.cpp:2082-2131 | a remark on the guards of the read: for any file a get returns nothing or a pair that SetTerritory would accept |
| TerritoryWords.ContainedInAWord | plugin/SystemServicesImplementation.cpp:2093-2094 | a text without blanks is found in the list iff it is found in one of its words, for every list |
| TerritoryWords.AcceptedExactly | plugin/SystemServicesImplementation.cpp:2476-2477 | a territory without blanks is accepted iff it is a code of the list or an end of its one four-letter word |
| TerritoryWords.AcceptedIsCodeExactly | plugin/SystemServicesImplementation.cpp:259 | an accepted territory is a code of the list iff it has no blank and is not such an end |
| TerritoryWords.NeighboursMakeTerritory | plugin/SystemServicesImplementation.cpp:2464-2517 | the last letter of any code, a blank and the first letter of the next make a territory that is no code, can be set and is read back |
| TerritoryWords.BlankIsAccepted | plugin/SystemServicesImplementation.cpp:259 | the input that fails the check: W A, across the first two codes |
| TerritoryLaws.EventsAreExact | plugin/SystemServicesImplementation.cpp:2464-2517 | over all runs from an absent file there is one event for each set that succeeds, with old territory and old region told from the earlier operations |
| TerritoryLaws.TerritoriesChain | plugin/SystemServicesImplementation.cpp:2464-2517 | over all runs from an absent file each event's old territory is the previous event's new one, and a get returns what the last event announced |
| TerritoryLaws.OldRegionExactly | plugin/SystemServicesImplementation.cpp:2500-2504 | over all runs an event's old region differs from the one in force iff the last region set was dropped and no get came since |
| TerritoryLaws.DroppedRegionReappears | plugin/SystemServicesImplementation.cpp:2472-2504 | a dropped region is announced as old later, unless a get came in between |
| FirmwareStatus.AfterLastBarMeaning | plugin/SystemServicesImplementation.cpp:1887-1890 | a text is what the erased line leaves iff it is the one suffix without a bar behind a bar, or the line when it has none |
| FirmwareStatus.EraseThroughBars | plugin/SystemServicesImplementation.cpp:1887-1890 | the erase loop ends and computes that text |
| FirmwareStatus.ParseLine | plugin/SystemServicesImplementation.cpp:1880-1927 | a line stripped in place is used only for its first tag |
| FirmwareStatus.ParseStatus | plugin/SystemServicesImplementation.cpp:1878-1928 | version and address come from the last deciding lines, the reboot is deferred iff some line says so |
| FirmwareReport.VersionIsLast | plugin/SystemServicesImplementation.cpp:1900-1914 | from state 2 on the version is the stripped text behind the last bar of the last line that contains DnldVersn|, has no Reboot| and has more than one character there, up to a null |
| FirmwareReport.AddressIsLast | plugin/SystemServicesImplementation.cpp:1915-1926 | so is the address, of the lines with DnldURL| that have neither DnldVersn| nor Reboot| |
| FirmwareReport.NothingReported | plugin/SystemServicesImplementation.cpp:1900-1927 | both are empty below state 2 and without such a line |
| FirmwareReport.DeferredExactly | plugin/SystemServicesImplementation.cpp:1884-1899 | the reboot is deferred iff some line with Reboot| has there two characters or more that begin with 1, yes or true in any case |
| FirmwareReport.TrimmedMeaning | plugin/SystemServicesImplementation.cpp:1891-1891 | the stripped text is the only one without a blank at either end that makes up the text with blanks around it |
| FirmwareStatus.UpToDeciderIsLast | plugin/SystemServicesImplementation.cpp:1912-1925 | the deciding line is the last one that qualifies |
| FirmwareStatus.ReportedExactly | plugin/SystemServicesImplementation.cpp:1900-1927 | below Downloading no version or address is reported; from there on one is iff some line has it, in files without null characters |
| FirmwareStatus.SingleOneIsNotEnough | plugin/SystemServicesImplementation.cpp:1880-1898 | the file defers the reboot iff some reboot line has an affirmative value other than a single 1 |
| FirmwareEvents.FirmwareState.OnFirmwareUpdateStateChange | plugin/SystemServicesImplementation.cpp:2958-2971 | stores and announces a state iff it differs from the stored one |
| FirmwareEvents.FirmwareState.OnSystemState | plugin/SystemServicesImplementation.cpp:3054-3069 | critical reboots become warnings, other states go to the filter |
| FirmwareEvents.TraceIsExact | plugin/SystemServicesImplementation.cpp:2958-2971 | over every run the events are, in order, a 600-second warning for each critical reboot and a change for each update state that differs from the one before it; the last update state is stored |
| FirmwareEvents.PartsAreExact | plugin/SystemServicesImplementation.cpp:3054-3069 | the announced states are the update states without consecutive repeats, the warnings one of 600 seconds per critical reboot |
| FirmwareEvents.ChangesNeverRepeat | plugin/SystemServicesImplementation.cpp:2960-2966 | no state is announced twice in a row and the last one announced is the stored one |
| NetworkStandby.StandbyCache.GetNetworkStandbyMode | plugin/SystemServicesImplementation.cpp:1574-1602 | answers from a valid cache, fills an empty one, reports failure otherwise |
| NetworkStandby.StandbyCache.SetNetworkStandbyMode | plugin/SystemServicesImplementation.cpp:2400-2428 | a successful set invalidates the cache |
| NetworkStandby.StandbyCache.OnNetworkStandbyModeChanged | plugin/SystemServicesImplementation.cpp:2949-2956 | a notification fills the cache |
| NetworkStandby.AtomicHandlersAgree | plugin/SystemServicesImplementation.cpp:1574-1602 | with atomic handlers, in every reachable state a valid cache without pending notification is right and pending ones end in the actual value |
| NetworkStandby.AnswersAreAsked | plugin/SystemServicesImplementation.cpp:1584-1589 | over every run an answer is under way iff its call was made and not yet stored, and is the value at that call |
| NetworkStandby.AgreementLostExactly | plugin/SystemServicesImplementation.cpp:1584-1594 | over every run the cache is wrong with nothing left to correct it iff a get stored its answer after an odd number of changes since its call with no notification pending, and no store, change or successful set followed |
| NetworkStandby.FilledCacheAnswers | plugin/SystemServicesImplementation.cpp:1574-1602 | a get that has to ask, or the last notification under way, leaves the true value in the cache, and any number of later gets return it |
| NetworkStandby.EmptyCacheAsks | plugin/SystemServicesImplementation.cpp:2400-2428 | a failed get fills nothing and a successful set empties the cache, so the next get asks again |
| NetworkStandby.SplitGetLosesChange | plugin/SystemServicesImplementation.cpp:1584-1594 | such an interleaving, after which every later get stays wrong |
| Observers.ObserverList.Register | plugin/SystemServicesImplementation.cpp:308-328 | appends and references an observer that is not listed, otherwise nothing |
| Observers.ObserverList.Unregister | plugin/SystemServicesImplementation.cpp:330-354 | removes and releases a listed observer, reports whether it was listed |
| Observers.ObserverList.Dispatch | plugin/SystemServicesImplementation.cpp:521-768 | calls every listed observer exactly once, in list order |
| Observers.RunsStayBalanced | plugin/SystemServicesImplementation.cpp:308-354 | over all runs no observer is listed twice and each holds one reference iff listed |
| Observers.ListedExactly | plugin/SystemServicesImplementation.cpp:308-354 | over all runs an observer is listed iff some operation registered it and no later one removed it |
| Observers.SinceIsRegistration | plugin/SystemServicesImplementation.cpp:314-319 | a listed observer owes its place to a registration that found it unlisted and after which it was not removed |
| Observers.SinceIsFirst | plugin/SystemServicesImplementation.cpp:314-319 | that registration is the only one such: of those after the last removal it is the first |
| Observers.RegistrationOrder | plugin/SystemServicesImplementation.cpp:308-354 | over all runs the list is in the order of those registrations |
| Observers.CalledWhileRegistered | plugin/SystemServicesImplementation.cpp:521-768 | over all runs an observer gets an event once for each notification that came while it was registered, and never otherwise |
| Observers.CalledInOrder | plugin/SystemServicesImplementation.cpp:521-768 | a notification adds its calls behind the earlier ones, in registration order |
| RpcClients.JsonRpc.GetClient | plugin/platformcaps/platformcapsdatarpc.cpp:273-288 | the re-entrant lookup ends, activates a new plugin through the Controller's client before creating its own, and returns the stored client |
| RpcClients.JsonRpc.Activate | plugin/platformcaps/platformcapsdatarpc.cpp:257-271 | gets the Controller's client and records the activation |
| RpcClients.GetKeepsValid | plugin/platformcaps/platformcapsdatarpc.cpp:273-288 | every entry keeps a created client of its own |
| RpcClients.ActivatedOnceEach | plugin/platformcaps/platformcapsdatarpc.cpp:242-288 | over all runs the activations are the distinct callsigns other than empty and Controller, once each, in order of first request |
| RpcClients.ActivationComesFirst | plugin/platformcaps/platformcapsdatarpc.cpp:273-288 | over all runs a plugin is activated after the Controller's client is created and right before its own client is |
| RpcClients.ClientsStay | plugin/platformcaps/platformcapsdatarpc.cpp:273-288 | a client once stored stays the one for its callsign |
| Downloads.WriteResult.CurlWrite | plugin/SystemServicesHelper.cpp:652-665 | appends a chunk that leaves two bytes free, otherwise refuses and changes nothing; sizes multiply in 64 bits |
| Downloads.BufferIsAcceptedChunks | plugin/SystemServicesHelper.cpp:652-665 | over any run the buffer holds the concatenation of the accepted chunks and its last two bytes stay free |
| Downloads.AllKeptExactly | plugin/SystemServicesHelper.cpp:652-665 | all chunks are kept iff together they have at most 65534 bytes |
| Downloads.PercentIsMonotone | plugin/SystemServicesHelper.cpp:338-346 | more bytes never give a smaller percentage, for any monotone rounding exact on 0, 1 and 100 |
| Downloads.PercentIsBounded | plugin/SystemServicesHelper.cpp:338-346 | the percentage is in 0..100, 0 at the start and 100 at the end, and the clamp to 100 never binds |
| Downloads.PercentIsFloor | plugin/SystemServicesHelper.cpp:338-346 | where nothing is rounded the percentage is the whole part of 100 * downloaded / total |

## Left out

- IARM, PowerManager, DeviceInfo, AuthService, RFC, telemetry and Thunder's worker pool: external, each an oracle; no order between worker-pool jobs is claimed.
- fork, kill, waitpid and the walk over child processes: a child is a pid; reaping is taken to succeed, and a completion event is not claimed to belong to the stored child, because the code does not check it.
- The daemon's mode: only this plugin changes it, and a failed call leaves it as it was; other clients' changes, which reach the handler registered at plugin/SystemServicesImplementation.cpp:440, are not modelled, so ModeHistory.DaemonAgreesExactly and ModeTheorems.SpecialModesAreShared are claims about runs without them.
- Settings and marker file: each write is atomic and succeeds; a missing stored duration reads as 0; cSettings is not part of this model.
- Several plugin activations in one process: the destructor stops the timer while the static mode survives (plugin/SystemServicesImplementation.cpp:282-306, 222-224), so the mode invariant is claimed from Configure on in a fresh process.
- Requests before Configure: ModeService.OperatingMode.SetMode covers them call by call; the runs start with Configure.
- Data races between SetMode calls and the timer thread: each request and each callback with its flag check is one step; ModeTheorems.RequestInsideCallback says what a request between the two does.
- ModeService.OperatingMode.TimerFunction: one bus result serves the whole run, because only the last callback makes a call.
- PluginRegistry.GetAvailablePlugins: reading the configuration files and comparing JSON values of other types with the text "false" are not modelled; nothing is claimed about versions beyond int, where atoi is undefined.
- ParameterLaws.NameWithEqualsDuplicates: names with a newline, which add several lines at once, are not characterised.
- TerritoryLaws.RoundTrip: takes the list of standard territories as a parameter without a newline; that the actual literal has none is read off the source.
- TerritoryWords.AcceptedExactly: the list is a parameter here too; that the actual one consists of three-letter codes, blanks and `Cuba` and has 1094 characters is read off plugin/SystemServicesImplementation.cpp:259.
- FirmwareStatus.ParseLine: the regular expression that trims spaces is a function that strips them at both ends; FirmwareReport.TrimmedMeaning says what it computes.
- Observers.ObserverList.Dispatch: observers that register or unregister from inside a callback are not modelled.
- Downloads.PercentIsBounded: splitting the progress file into words and the number parsing are not modelled; an exact floor is claimed only where nothing is rounded.
- Error codes, enum and string tables, thermal levels, time zones, device information, MAC addresses, firmware update queries: settled by one branch or file-system and JSON plumbing.
