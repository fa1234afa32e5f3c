# Fan controller firmware: a verified model

A Dafny 4.11 model of the part of the ESP32 firmware that decides what the fan does and keeps what the user configured. The output of the fan is a function of persisted settings, a cyclic daily schedule, a piecewise linear temperature curve and a presence sensor, while HTTP handlers rewrite the settings concurrently. Beside it stand the firmware upload loop with its status and restart chain, and the minute scheduler that fires register actions.

The modules follow the program:

- `FirmwareTypes`: C integer widths and the option type.
- `FanDriver`, `FanCurve`, `Schedule`, `ControlLaw`: duty arithmetic, the curve, daily windows and the first-match rule, and the relation `OutputAllowed` between configuration, readings and output, with the promise in clock times and percentages that it equals.
- `FanControlTask`: the imperative control iteration over the slot store, proved against that relation.
- `SlotBlob`, `ConfigStorage`, `StorageRuns`, `SettingRuns`: the byte image of the slot table, the imperative store over flash whose calls may fail, and runs of the table and of the settings through failures and power cycles.
- `SlotHandlers`, `ConfigHandlers`: the request handlers from the decoded fields onward.
- `Convergence`: the control task and the handlers as small steps under arbitrary interleaving, with an independent onlooker who notes what the sensors showed.
- `Tearing`, `TornPosts`: when an iteration that overlaps a POST can output what neither configuration allows, as a condition on the two configurations, and that condition worked out.
- `OtaUpload`, `HttpMonitor`: the upload loop, the message queue, the status words and the restart timer.
- `Registers`, `MinuteScheduler`: the register table and the polling loop.
- `NtcSensor`: the thermistor reading.

Conventions. C `float` values are modelled by reals and a temperature is `NaN` or a real. Where C leaves the float to `uint8_t` conversion undefined (section 6.3.1.4 of ISO/IEC 9899:2011), that is for NaN, and where `tmax - tmin` overflows `int`, the result is an arbitrary byte. Reads and writes of flash, sensor values, clock readings, receive sizes and the results of OTA calls are parameters chosen by the environment; every result holds for all of them. The number of slots and of registers is arbitrary (both are 10 on the device). A value set in flash but not committed may or may not survive a power cycle. Each class is proved against functions of its abstract state, and the results over runs are lemmas about those functions.

What turned out not to hold of the code, and the exact condition under which it does:

- The branch test for windows is the arc of the 1440-minute circle exactly for day-aligned endpoints (`Schedule.SlotArcExactly`). The slot POST handler does not check hours and minutes, so other endpoints can be stored: 30:00 to 06:00 covers the first six hours of the day (`SlotHandlers.HourThirtyStored`).
- The curve is monotone in temperature exactly when `tmax - tmin` fits an `int` (`FanCurve.MonotoneExactly`).
- A reading fixes the output exactly when it is not NaN on a rising curve, nor between thresholds more than an `int` apart; otherwise any byte is possible, in automatic and in program mode (`ControlLaw.DeterminedExactly`).
- A save of a slot brings RAM and flash together exactly when flash took it or nothing changed (`StorageRuns.SaveCoherentExactly`).
- A failed load at boot is remembered as loaded, and the next committed save then erases every other slot from flash (`StorageRuns.FailedLoadExactly`).
- A control iteration that overlaps a POST can output what neither the old nor the requested configuration allows. For every POST from every configuration, some run does so exactly if some mixture of the two configurations allows an output that neither allows (`Tearing.TearsExactly`). So a manual POST never does. Some automatic POST does exactly if the fan is in automatic mode with thresholds that are not at opposite ends of the `int` range (`TornPosts.AutoTearsExactly`), and some slot POST exactly if the fan is in program mode and there are slots (`TornPosts.SlotTearsExactly`). An erase can too, and whether it does depends on the records after it as well (`TornPosts.LaterRecordsMatter`).
- A receive timeout during an upload does not retry, because `continue` in a do-while loop jumps to the loop condition: it ends the upload, which then goes on to `esp_ota_end` with a truncated image (`OtaUpload.TimeoutTruncates`).
- A failed upload after a successful one changes the status word but does not stop the pending restart: in every run an armed timer stays armed (`HttpMonitor.ArmedForGood`), and the device can restart while the status word says that the update failed exactly if a success was processed and a failure after it (`HttpMonitor.FalseRestartExactly`, `RestartsAfterFailedUpdate`).
- A pass that fires registers sleeps through the minutes after it or is in time for them, depending on how many it fired and where in its minute it read the clock (`MinuteScheduler.NextReadExactly`, `LateFiringSkipsMinute`, `EarlyFiringMissesNothing`). With registers at 12:00 and 12:01, a pass at 12:00:51 always skips the second (`MinuteScheduler.NoonSkipsNextMinute`). A run without such passes misses nothing (`MinuteScheduler.EveryMinuteServed`).
- A pass whose clock read fails fires the registers of the last pass with a clock again (`MinuteScheduler.FailedReadFiresAgain`).
- A stored register shorter than ten characters is read with bytes of the register before it (`Registers.StaleBytesExactly`).
- Updates of distinct slots commute in flash exactly if both saves go through, neither does, or the failed one had nothing to change (`SlotHandlers.DistinctSetsCommute`).

## Model

| member | source | states |
|---|---|---|
| FanDriver.Fan.SetPercent | main/fan_driver/fan_driver.c:41-57 | stores the percentage clamped to 100 and writes its duty, with the product taken in uint32 |
| FanDriver.Fan.GetPercent | main/fan_driver/fan_driver.c:60-63 | the remembered percentage is the only one that explains the running duty, and the ceiling of 100 * duty / full scale, for 7 to 25 bits |
| FanDriver.NoOverflowExactly | main/fan_driver/fan_driver.c:48-51 | the uint32 product never wraps on 0..100 exactly for resolutions up to 25 bits |
| FanDriver.WrapsAtTwentySix | main/fan_driver/fan_driver.c:48-51 | at 26 bits the product wraps, and full speed would be 36% of full scale |
| FanDriver.StrictlyIncreasingExactly | main/fan_driver/fan_driver.c:48-51 | different percentages give different, ordered duties exactly from 7 bits on |
| FanDriver.PercentRecovered | main/fan_driver/fan_driver.c:48-51 | 0 is off, 100 is full scale, and the percentage is the ceiling of 100 * duty / full scale |
| FanCurve.ThresholdLaw | main/http_server.c:1110-1119 | the curve is the one number in 0..100 that reaches p exactly when 100(t - t0) >= p(t100 - t0) |
| FanCurve.CurveBounded | main/http_server.c:1153-1162 | the curve stays in 0..100, and below 100 below the upper threshold |
| FanCurve.CurveGraded | main/http_server.c:1110-1119 | the curve is 100 for thresholds that do not rise and otherwise the graded output, for every defined reading |
| FanCurve.DefaultLandmarks | main/http_server.c:1110-1119 | at 24 and 28 degrees the graded output is 0, 50, 99 and 100 for readings of 24, 26, 27.99 and 28 |
| FanCurve.OffTheRamp | main/http_server.c:1110-1115 | off the ramp the curve is defined for every reading and width: 100 flat, also on NaN, 0 at or below the lower threshold, 100 at or above the upper |
| FanCurve.MonotoneExactly | main/http_server.c:1110-1119 | the curve never falls as temperature rises, across all branches, exactly when the width fits an int |
| Schedule.ArcExactly | main/http_server.c:1140-1150 | on a day's minutes the three-branch test is the arc (cur - start) mod 1440 < (end - start) mod 1440 exactly for day-aligned endpoints |
| Schedule.SlotIsArc | main/http_server.c:1140-1150 | for well-formed slots the three-branch test is the arc |
| Schedule.SlotArcExactly | main/http_server.c:1138-1150 | any stored slot covers exactly its arc of the day if and only if it is inactive or its endpoints are day-aligned |
| Schedule.WindowOnClock | main/http_server.c:1138-1150 | at every time of day a well-formed slot covers exactly its window in hours and minutes, past midnight if its end comes first |
| Schedule.MinutesCarry | main/http_server.c:1140-1141 | sixty minutes too many in a stored start or end count as an hour |
| Schedule.RotationInvariant | main/http_server.c:1140-1150 | turning start, end and current minute together changes nothing |
| Schedule.SwappedIsComplement | main/http_server.c:1140-1150 | for arbitrary distinct integers, swapping the endpoints gives the exact complement |
| Schedule.ScheduledIsLeastIndex | main/http_server.c:1131-1168 | a minute goes to the least-index active slot that covers it, or to none exactly when none does |
| Schedule.HigherSlotsDoNotMatter | main/http_server.c:1135-1166 | changing a slot cannot affect a minute won by a lower index |
| Schedule.InactiveSlotsDoNotMatter | main/http_server.c:1138 | deleting inactive slots changes nothing |
| Schedule.DayConservation | main/http_server.c:1135-1166 | for any number of any slots, the minutes each wins plus the uncovered minutes are exactly 1440 |
| Schedule.WindowSize | main/http_server.c:1140-1150 | a single well-formed active window holds exactly (end - start) mod 1440 minutes |
| ControlLaw.ScheduleRefinesCircle | main/http_server.c:1131-1168 | for well-formed slots the program-mode outputs are those of the first arc on the circle |
| ControlLaw.OutputIgnoresOtherSlots | main/http_server.c:1135-1168 | the output is the same without the inactive slots and whatever stands after the winner |
| ControlLaw.ProgramSimulatesAuto | main/http_server.c:1104-1171 | two complementary windows sharing thresholds make program mode allow exactly the outputs of automatic mode, for every reading |
| ControlLaw.DutyMonotoneInTemperature | main/http_server.c:1100-1178 | for fixed mode, minute and slots the duty never falls as the temperature rises |
| ControlLaw.OutputUnique | main/http_server.c:1100-1176 | on a reading for which C defines every step the output is determined |
| ControlLaw.DeterminedExactly | main/http_server.c:1104-1171 | the output is determined exactly for readings that do not reach an undefined conversion, in every mode; the others may leave any byte |
| ControlLaw.OutputIsPromised | main/http_server.c:1094-1176 | the control law is exactly the promise in the user's terms: mode numbers, clock times, first window, and percent of the way between thresholds |
| ControlLaw.NobodyThere | main/http_server.c:1104-1176 | without presence only manual mode runs the fan, whatever the readings and the table |
| FanControlTask.SettingRoundTrip | main/config_storage.c:53-190 | a stored setting is what the next iteration sees, nothing else changes, and an empty store shows the defaults |
| FanControlTask.SettingSurvives | main/config_storage.c:53-152 | a setting committed to flash is what an iteration sees after a power cycle, with all other settings as they were |
| FanControlTask.SettingsByName | main/config_storage.c:53-190 | each setting goes where its getter reads it, and failed reads show 0, 0, 24, 28 and default slots |
| FanControlTask.AutoPercent | main/http_server.c:1104-1123 | automatic mode outputs the curve of the stored thresholds under presence, and 0 otherwise |
| FanControlTask.ProgramPercent | main/http_server.c:1124-1172 | the scan with continue and break outputs the curve of the first winning slot of a table of any size, or 0 |
| FanControlTask.ControlIteration | main/http_server.c:1094-1180 | whatever the readings and whichever reads fail, the fan ends at an output the control law allows for the configuration seen |
| FanControlTask.StatusHandler | main/http_server.c:1069-1086 | the status reports the mode an iteration would see and the one percentage that explains the duty on the fan, the ceiling of 100 * duty / 1023 |
| SlotBlob.SlotImage | main/config_storage.h:26-34 | the ten-byte image of a slot decodes to it, and any ten bytes are the image of what they decode to |
| SlotBlob.TableLayout | main/config_storage.h:26-34 | the stored table is its records in order, five bytes, a padding byte, and two int16 values in two's complement, low byte first |
| SlotBlob.OverlayBySlot | main/config_storage.c:215-259 | loading a blob that fits takes the slots inside it from it and leaves the others at the base |
| SlotBlob.OverlayImage | main/config_storage.c:241-259 | byte for byte, the loaded table is the stored bytes followed by what the base image holds past them |
| SlotBlob.SaveThenLoad | main/config_storage.c:209-292 | saving m slots and loading n >= m gives them back followed by defaults, whatever the padding bytes |
| SlotBlob.LoadedSlot | main/config_storage.c:209-260 | a loaded slot is its ten stored bytes, and the default record past the blob, without a blob, or when the blob exceeds the table |
| ConfigStorage.Nvs.ReadBlob | main/config_storage.c:249-257 | a blob read succeeds only if the stated size holds the blob, and otherwise leaves the buffer alone |
| ConfigStorage.Storage.LoadProgramSlots | main/config_storage.c:209-260 | the table becomes the stored blob over defaults, and defaults when any call fails, nothing is stored or the blob is too long |
| ConfigStorage.Storage.SaveProgramSlots | main/config_storage.c:262-292 | writes the whole table and commits; a failing call stops there |
| ConfigStorage.Storage.StorageInit | main/config_storage.c:34-47 | erases flash when the partition is unusable, loads the table and marks it loaded even if the load failed |
| ConfigStorage.BootFlash | main/config_storage.c:34-47 | a boot empties flash exactly if the partition is unusable and can be erased, and leaves it alone otherwise |
| ConfigStorage.Storage.EnsureSlotsLoaded | main/config_storage.c:295-301 | loads at most once |
| ConfigStorage.Storage.GetSlot | main/config_storage.c:304-317 | returns the slot, or the default record for an id out of range |
| ConfigStorage.Storage.PutSlot | main/config_storage.c:320-333 | changes one slot in RAM and writes the table through; an id out of range only loads |
| ConfigStorage.Storage.EraseSlot | main/config_storage.c:336-347 | is the update with the default record |
| ConfigStorage.Storage.Save | main/config_storage.c:53-152 | stores one setting, committing even if the set call failed |
| ConfigStorage.Storage.ResetAll | main/config_storage.c:353-365 | erases flash and leaves the RAM table alone |
| ConfigStorage.Storage.GetMode | main/config_storage.c:102-120 | the stored mode, 0 when absent or unreadable |
| ConfigStorage.Storage.GetManualPwm | main/config_storage.c:67-82 | the stored percentage, 0 when absent or unreadable |
| ConfigStorage.Storage.GetAutoTmin | main/config_storage.c:154-171 | the stored lower threshold, 24 when absent or unreadable |
| ConfigStorage.Storage.GetAutoTmax | main/config_storage.c:173-190 | the stored upper threshold, 28 when absent or unreadable |
| StorageRuns.StepRefines | main/config_storage.c:196-347 | under every pattern of failures each operation on bytes is an operation on tables |
| StorageRuns.CommittedSaveSyncs | main/config_storage.c:262-347 | one committed save puts the whole table in flash, whatever failed before it |
| StorageRuns.DurableRefinement | main/config_storage.c:196-347 | after any run, a committed save and then good events, a power cycle and the next successful load give back exactly the table the callers saw |
| StorageRuns.SaveIsAtomic | main/config_storage.c:262-333 | whichever of its calls fail, a save of a slot is all or nothing across a power cycle |
| StorageRuns.SaveCoherentExactly | main/config_storage.c:262-347 | over every pattern of failing calls, a save of a slot leaves RAM and flash together exactly when flash took it or the slot was unchanged, and a power cycle brings the slot back exactly when flash took it |
| StorageRuns.FailedLoadExactly | main/config_storage.c:34-47 | after a failed load the store is coherent exactly if the boot erased flash or flash held defaults, and the next committed save wipes the other slots |
| StorageRuns.ResetExactly | main/config_storage.c:353-365 | a committed reset keeps RAM and flash together exactly when RAM held defaults |
| SettingRuns.SettingsSurvive | main/config_storage.c:53-190 | after any run, a committed save of a setting and then events that accept or reject whole saves: before and after a power cycle an iteration sees the last accepted value of every setting |
| SettingRuns.ResetSurvives | main/config_storage.c:353-365 | after a committed reset, a power cycle and any boot show the defaults in every setting and slot |
| SlotHandlers.GetHandler | main/http_server.c:485-527 | replies with the slot's numbers, and refuses an invalid id without touching anything |
| SlotHandlers.SetHandler | main/http_server.c:540-605 | stores the posted numbers cast to their fields and then asks for program mode; refuses an invalid id |
| SlotHandlers.EraseHandler | main/http_server.c:611-645 | stores the default record without touching the mode; refuses an invalid id |
| SlotHandlers.SetThenGetExactly | main/http_server.c:499-517 | a GET after a POST returns the posted numbers exactly when they fit their fields, whichever flash calls fail |
| SlotHandlers.StoredAsPosted | main/http_server.c:578-586 | each posted number is stored in the field of its name exactly when all fit |
| SlotHandlers.CastWraps | main/http_server.c:578-586 | a posted number that does not fit is stored modulo 256, or modulo 65536 around zero |
| SlotHandlers.OtherSlotsUntouched | main/http_server.c:578-595 | a POST does not change what a GET of another slot returns |
| SlotHandlers.HourThirtyStored | main/http_server.c:578-595 | a posted window 30:00 to 06:00 is stored, covers the first six hours of the day, and has an empty arc |
| SlotHandlers.EraseIsSetDefault | main/http_server.c:629-638 | erasing stores what posting the default record stores and leaves the mode alone |
| SlotHandlers.DistinctSetsCommute | main/config_storage.c:320-333 | updates of distinct slots commute in RAM always, and in flash, now and after a power cycle, exactly if both saves go through, neither does, or the failed one had nothing to change |
| ConfigHandlers.SetAutoHandler | main/http_server.c:994-1026 | three settings in program order, each in flash as posted if its own write is accepted; if all are, the configuration is the requested one |
| ConfigHandlers.ManualPwmHandler | main/http_server.c:1028-1063 | the posted percentage, 0 if negative and 100 if above, is shown and stored, and is an output the new configuration allows |
| ConfigHandlers.SlotHandlersMakeRequested | main/http_server.c:578-598 | the slot handlers on the real store make the configuration the interleaved model says they request |
| Convergence.WritesMakeRequested | main/http_server.c:994-1063 | a handler's separate writes together make the requested configuration |
| Convergence.ManualPostShows | main/http_server.c:1048-1058 | undisturbed, the writes of a manual POST leave the fan at the posted percentage, 0 if negative and 100 if above |
| Convergence.QuietIterationsMatch | main/http_server.c:1092-1181 | from any state with no handler active, every iteration but the one in flight outputs what the configuration specifies for what the sensors and the clock showed at its own sampling steps, as an independent onlooker noted them, and the fan then shows it |
| Convergence.SteadyFanIsSpecified | main/http_server.c:1092-1181 | with steady sensors the fan shows exactly the one output specified for the configuration and the sensors |
| Convergence.PostConverges | main/http_server.c:994-1181 | under every interleaving with a POST, every iteration that starts after its last write outputs what the requested configuration specifies for its own samples, until the next POST |
| Convergence.ConvergesWithin | main/http_server.c:1092-1181 | within 2(8n + 8) control steps of a quiet period over n slots the fan shows exactly the output specified for the current configuration and steady sensors |
| Convergence.PostTakesEffect | main/http_server.c:994-1181 | the same after a POST: whatever happened while its writes were under way, the fan then shows exactly the output of the requested configuration for the sensors |
| Convergence.IterationAgrees | main/http_server.c:1094-1180 | the imperative iteration on the real store and a quiet small-step run of the same configuration and sensors leave the same percentage and duty on the fan |
| Tearing.OverlapIsExplained | main/http_server.c:994-1181 | over every interleaving of one POST with control iterations before, during and after it, every output is one that a mixture of the old and the requested configuration allows, and one of the two if the POST does not rewrite what the present mode reads |
| Tearing.TearsExactly | main/http_server.c:994-1181 | for every POST, erases included, from every configuration: no run tears an output if and only if no mixture allows an output that neither configuration allows; for each torn output of a mixture a run is built |
| TornPosts.OverlapIsSafe | main/http_server.c:994-1181 | a POST is safe over every interleaving if it is manual, or outside the mode or the table it writes for, or keeps a threshold, or the old or new thresholds are extreme, or the old and new records are inactive |
| TornPosts.AutoTearsExactly | main/http_server.c:1015-1019 | no automatic POST tears exactly if the fan is not in automatic mode or its thresholds are extreme; for all others a POST that tears is built |
| TornPosts.SlotTearsExactly | main/http_server.c:578-598 | no slot POST tears exactly if the fan is not in program mode or there are no slots; for all others one that tears is built |
| TornPosts.LaterRecordsMatter | main/http_server.c:629-638 | erasing a lone 10:00-11:00 window tears, and with a window over the rest of the day after it the same erase never does |
| OtaUpload.FindHeader | main/http_server.c:406 | finds the first blank line, and nothing when there is none or a NUL comes first |
| OtaUpload.HeaderBytes | main/http_server.c:406 | the header ends at two carriage return and line feed pairs after anything without carriage return or NUL, whatever follows |
| OtaUpload.HeaderIsLineEnds | main/http_server.c:406 | wherever a header is found the four bytes are there, and no NUL before them |
| OtaUpload.FirstChunk | main/http_server.c:390 | the first receive brings what the network delivers, at most 1024 bytes and at most the body |
| OtaUpload.Request.Receive | main/http_server.c:390-399 | a receive returns the next bytes of the body, nothing once it is exhausted or closed, or a negative length |
| OtaUpload.Upload | main/http_server.c:375-460 | the loop ends; flash gets what follows the header of everything received; content_received counts it and stays below content_length; and the result is determined by the receives and the OTA calls |
| OtaUpload.UploadEndsExactly | main/http_server.c:388-460 | for every script of receives, the upload fails exactly if the begin call fails or the first receive that brings nothing breaks before the body is complete; otherwise it finishes the update |
| OtaUpload.BreakAndCloseDiffer | main/http_server.c:390-399 | after fair receives that did not complete the body, a broken receive fails the upload and a closed peer finishes it truncated |
| OtaUpload.NothingReceived | main/http_server.c:390-399 | a first receive that breaks fails; one that times out or closes leaves a run that C does not define |
| OtaUpload.FlashedIsPayload | main/http_server.c:388-432 | for every script of receives, flash gets what follows the header up to the summed volume of the receives before the first failing one, and all of it exactly when none fails or that volume covers the body |
| OtaUpload.ChunkingIndependent | main/http_server.c:388-432 | any two error-free splittings of a body flash the same bytes |
| OtaUpload.TimeoutTruncates | main/http_server.c:392-396 | a timeout ends the upload: flash holds exactly the volume the receives before it brought, complete only if that covers the body, and the update is finished all the same |
| HttpMonitor.Monitor.SendMessage | main/http_server.c:1234-1239 | appends one message once the queue has room |
| HttpMonitor.Monitor.ReportUpload | main/http_server.c:453-459 | sends success or failure for a finished upload, and nothing for one that gave up |
| HttpMonitor.Monitor.ResetTimer | main/http_server.c:258-271 | starts a timer exactly when the status says successful |
| HttpMonitor.Monitor.ProcessMessage | main/http_server.c:273-315 | takes the oldest message, sets its status word, and starts the timer on a success |
| HttpMonitor.StatusFollowsSends | main/http_server.c:273-315 | over every run, messages are processed in the order sent and each status is what the last message of its kind announced |
| HttpMonitor.StatusWords | main/http_server.c:273-315 | over every run, the status words have the values that the last message of their kind stands for |
| HttpMonitor.WordsAtFirst | main/http_server.c:103-106 | before any message of their kind the words are 0 and no status |
| HttpMonitor.RestartOnlyAfterGoodUpload | main/http_server.c:434-457 | over every run, a timer is armed exactly when a success was processed, and arming or restarting needs an earlier upload whose begin, end and boot calls succeeded |
| HttpMonitor.ArmedForGood | main/http_server.c:258-309 | in every continuation of every run with an armed timer it stays armed, and can fire at any moment until the restart |
| HttpMonitor.FalseRestartExactly | main/http_server.c:258-315 | after any run, the timer can restart the device under the failed status exactly if a success was processed and the last firmware message processed was a failure |
| HttpMonitor.RestartsAfterFailedUpdate | main/http_server.c:258-315 | a run from the start with a good upload, then one whose end call fails, ends restarted with the failed status |
| Registers.ParsePrint | main/wifi_app.c:267-302 | the eleven stored digits and the register fields are in bijection |
| Registers.RecordMatches | main/wifi_app.c:748-819 | a stored record fires exactly when the digit of the day, Monday first, is 1 and its first four digits are the hour and minute |
| Registers.RecordReceived | main/wifi_app.c:239-302 | eleven stored digits are read as they are through the buffer and atoi, whatever the buffer held |
| Registers.FieldsAreAtoi | main/wifi_app.c:274-302 | the fields are read as a general atoi reads one and two characters |
| Registers.StaleBytesExactly | main/wifi_app.c:221-302 | what a register is read as depends on the bytes left in the buffer exactly when the reader copies fewer than eleven characters, after a successful or an unnoticed failed read |
| Registers.NeverFiresExactly | main/wifi_app.c:355-366 | a register can never fire exactly when it has no day or its time is no time of day, as the sentinel |
| MinuteScheduler.Scheduler.InitializeRegisters | main/wifi_app.c:311-369 | each register is parsed from the one shared buffer after everything read up to its own, failed string reads included, or becomes the sentinel when it is missing |
| MinuteScheduler.RecordReadBack | main/wifi_app.c:311-349 | a stored eleven-digit record is read as it is, whatever the registers before it left in the buffer |
| MinuteScheduler.LastCopyCounts | main/wifi_app.c:311-349 | each position of the shared buffer holds what the last register long enough for it put there, or what the stack held |
| MinuteScheduler.Scheduler.UpdateRegister | main/wifi_app.c:267-310 | one register is re-read through a buffer of its own, exactly for a stored record; it keeps its value when it is missing |
| MinuteScheduler.Scheduler.CompareHourDay | main/wifi_app.c:748-819 | fires exactly on a matching day, hour and minute, toggling the LED and sleeping 40 s |
| MinuteScheduler.Pauses | main/wifi_app.c:801-853 | a pass that fires n registers pauses for 40 s each and 30 s, each at most 10 ms short |
| MinuteScheduler.Calendar | main/wifi_app.c:835-836 | the broken-down time carries minute by minute into the hour and the weekday from a Thursday at 0:00 |
| MinuteScheduler.Scheduler.RunPass | main/wifi_app.c:830-854 | one clock read, or the time of the pass before when it fails; all matching registers in order; then the pass delay |
| MinuteScheduler.Scheduler.Run | main/wifi_app.c:821-854 | every run of passes, with any clock reads failing, is a valid trace, and the LED has toggled once per firing |
| MinuteScheduler.FiredExactly | main/wifi_app.c:847-851 | a pass fires exactly the registers that match its clock read, each once |
| MinuteScheduler.FiringPassOwnsMinute | main/wifi_app.c:801-853 | no later pass reads the clock in the minute of a pass that fired |
| MinuteScheduler.AtMostOncePerMinute | main/wifi_app.c:801-853 | over every run a register fires at most once in one occurrence of a minute |
| MinuteScheduler.FiresOnceExactly | main/wifi_app.c:830-853 | a matching register fires in a minute exactly if the first pass not before it reads within it, and then in that pass only |
| MinuteScheduler.QuietPassMissesNothing | main/wifi_app.c:830-853 | if the last pass before a minute fired nothing and took under 30 s, every matching register fires in it exactly once |
| MinuteScheduler.LateFiringSkipsMinute | main/wifi_app.c:801-853 | firings late or numerous enough make the scheduler sleep through the whole d-th minute after them, for every d |
| MinuteScheduler.EarlyFiringMissesNothing | main/wifi_app.c:801-853 | if the delays of a pass end in the d-th minute from its own, every register that matches that minute fires in it exactly once |
| MinuteScheduler.EveryMinuteServed | main/wifi_app.c:821-853 | over every run whose passes are prompt and early enough, a register fires exactly once in every minute it matches, from the first read to the last |
| MinuteScheduler.NextReadExactly | main/wifi_app.c:801-853 | for every d, the next read is bound to fall in the d-th minute, or bound to miss it, exactly under the stated conditions on the read time and the number of firings |
| MinuteScheduler.NoonSkipsNextMinute | main/wifi_app.c:801-853 | registers at 12:00 and 12:01 and a pass at 12:00:51: a run exists, and in all of them the second register misses its minute |
| MinuteScheduler.FailedReadFiresAgain | main/wifi_app.c:823-851 | after any chain of failed clock reads a pass repeats the firings of the last pass with a clock, which within a day is right exactly if there were none |
| NtcSensor.GuardExactly | main/ntc_driver/ntc_driver.c:41-47 | the voltage guard accepts exactly the raw readings 13 to 4082 |
| NtcSensor.NoReadingExactly | main/ntc_driver/ntc_driver.c:41-47 | the reading is no number exactly for raw readings up to 12 and from 4083 |
| NtcSensor.DividerLaw | main/ntc_driver/ntc_driver.c:38-57 | raw * (10000 + R) = 4095 * R |
| NtcSensor.BetaLaw | main/ntc_driver/ntc_driver.c:59-79 | 1 / T = 1 / 298.15 + ln(R / 10000) / 3950 for the reported reading plus 24 degrees, in kelvin |
| NtcSensor.HalfScale | main/ntc_driver/ntc_driver.c:33-79 | with ln(1) = 0 the reported temperature crosses 1 degree between raw 2047 and 2048 |
| NtcSensor.KelvinPositive | main/ntc_driver/ntc_driver.c:59-66 | inside the guard resistance and absolute temperature are positive |
| NtcSensor.ReadingAntitone | main/ntc_driver/ntc_driver.c:33-79 | the temperature strictly falls as the raw reading rises |
| NtcSensor.DutyAntitoneInRaw | main/ntc_driver/ntc_driver.c:33-79 | for a fixed configuration the fan duty never rises as the raw reading rises |

## Left out

- HTTP request plumbing, JSON parsing, static files, URI registration and response text: handlers start from the decoded integer fields.
- WiFi, SoftAP, credentials, SNTP, MQTT, GPIO and LED setup, PIR interrupts, task creation and deletion, boot order in `main.c`.
- IEEE rounding of floats and the real natural logarithm: reals, and a logarithm known only to be strictly increasing and at least -6 from the least accepted ratio.
- Internals of NVS, OTA, LEDC, ADC and FreeRTOS: abstract objects with the contracts stated on `Nvs`, `Request` and `Delay`. `ESP_ERROR_CHECK` failures, which abort, do not occur in the model.
- OtaUpload.Upload: a first receive without a complete header, or without any data, is reported as Undefined, because C gives the run no meaning; reads of stale buffer bytes past the first chunk and failures of single `esp_ota_write` calls, which the handler ignores, are not modelled.
- HttpMonitor.RestartOnlyAfterGoodUpload: runs contain only uploads that C defines; the eight seconds of the timer are not measured.
- Convergence.PostConverges: the struct copies of a slot are split field by field in declaration order; other orders of the copied bytes and writes that bypass the handlers are not modelled. The table is already loaded, as it is after boot; the write of the slot blob to flash is not a step there because the control task reads RAM.
- MinuteScheduler.Scheduler.Run: the local clock is monotone, the register table does not change during a run, and other users of the LED are not modelled.
- MinuteScheduler.Scheduler.InitializeRegisters: stored strings of more than eleven characters, which overrun the C buffer, are excluded; so they are for UpdateRegister.
- ConfigStorage.Storage.StorageInit: the same initialisation made earlier by `main.c`, and the registers that an erased partition loses, are not connected to it.
- The multipart trailer of an upload: the loop does not strip it, so the flashed bytes include it.
