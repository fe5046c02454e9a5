# Door lock: verified model

A Dafny model of a Matter door lock application and proofs about it. The application drives a simulated
actuator, an event queue, three timers and a status LED; it stores users, credentials and schedules in
tables that are saved to flash; and it stores user labels as TLV records.

`dafny verify dfyconfig.toml` checks the whole project.

| file | content |
|---|---|
| `DoorLockTypes.dfy` | constants, lock states, events, timers |
| `Led.dfy` | the LED class, the value it denotes, how fast it blinks |
| `Device.dfy` | the application as a transition system with a millisecond clock; runs |
| `Application.dfy` | the application as an object (lock manager, application task, button handler), proved to take exactly the steps of `Device.dfy` and, with its store, of `LockSystem.dfy` |
| `DeviceSafety.dfy` | what every run keeps, even when events are late or dropped |
| `DeviceHistory.dfy` | what a run does to clock, debounce timer, queue and attribute, read off its steps |
| `DeviceLed.dfy` | what the LED does in every run, in numbers |
| `DevicePresses.dfy` | what presses and commands add up to over a run |
| `DeviceTiming.dfy`, `DeviceCapacity.dfy` | runs in which every event is served in time |
| `DeviceWitnesses.dfy` | runs that show the bounds are exact; time can always pass |
| `DeviceAgreement.dfy` | exactly when the LockState attribute agrees with the actuator |
| `CredentialStore.dfy`, `CredentialProperties.dfy` | the credential table and byte buffer as a class; map refinement, power loss, PIN check |
| `LockSystem.dfy` | application and credential store together: every remote action was authorised |
| `UserStore.dfy`, `UserProperties.dfy` | the user tables as a class; aliasing spans, map refinement, power loss |
| `ScheduleStore.dfy` | the schedule tables as a class; what a reload brings back |
| `LockManagerInit.dfy` | the limits of the parameters are the sizes of the tables |
| `UserLabels.dfy` | label writer and iterator; round trip |

## How the code is modelled

- Each handler is one atomic step: a remote command, a button edge, a timer expiry with its post, one
  turn of the application loop, one deferred attribute update, the passing of time. The sequences of
  callbacks, reset marks and dropped events in the state record what happened and are read by no handler.
- RTOS timers are one-shot and expire at their deadline; starting and stopping them succeeds. Flash
  writes of one key are atomic. The lock parameters are the same after a reboot.
- The attribute is written by the application only, with Locked or Unlocked; at boot it can have any value.
- The build is the one without display, with locking and unlocking by the button enabled, on the board
  whose function button has index 0.
- Pointers inside persisted spans are modelled as (row, length). The two- and three-dimensional byte
  and record tables for credentials are held as flat arrays in the same order.
- The weekday, yearday and holiday tables are one class with different sizes. The holiday table has a
  single row; its schedules belong to row 1, where the other tables have the user, so for it one user is in use.
- Whether a PIN is required, the level of the button pin, the clock, the strings that the SDK's TLV writer
  accepts, and the bytes that follow a record in a read buffer are parameters. Sizes set by the Matter SDK are parameters too (width of a name row,
  sizes of a schedule and its header), except that label strings have at most 16 bytes and label records
  at most 42.

## What the proofs found

- The queue of ten never overflows if every event is served within 4000 ms, and 4000 is exact:
  `QueueCapacity`. Beyond it a completion can be lost, and then the lock stays in the middle of its action
  until the next reboot: `Overflow`, `LostCompletionFreezes`.
- A factory reset can come in the same millisecond in which it is armed, if the expiry event of an
  earlier, cancelled arming is still queued: `EarlyReset`. Where events are served in time this is the
  only way to be early: `ResetTiming`.
- An accepted remote command writes the attribute even if the actuator refuses the action. Agreement
  depends on when commands are accepted; the exact condition is `Harmless` (`HarmlessIsExact`), and
  `OverlappingCommands` is a run that leaves the attribute Locked and the lock unlocked.
- The copy of credential data is not bounded by its row. A credential leaves all others alone exactly if
  its data ends before the next row that a key names: at most 20 bytes for indices 1 to 9, 1820 for index
  10, 2000 for the programming PIN (`RoomIsExact`). The PIN check is about the ten nameable PINs in any case,
  also after longer data: `PinCheckIsAboutCredentials`.
- A user name that fills its row loses its last character: `SetThenGet`. A user at or beyond
  `numberOfUsers` is accepted but gone after a reboot: `ReloadBoundary`.
- Schedule tables are saved with a length counted in schedules in use rather than records of the table, so
  the last schedule of the last user never survives a reboot: `LastScheduleIsLost`. Which ones do is the
  inequality of `SurvivingSchedules`.
- A user label reads back as written exactly if it is within 16 bytes and holds neither a NUL nor the
  separator byte 0x1F, at which the SDK's string reader stops: `LabelRoundTrip`.
- A device that boots with the attribute neither Locked nor Unlocked disagrees with its actuator until the
  first accepted command or the first action: `AgreementFromAnyBoot`.
- The repository's README says to hold the button for two seconds to arm the reset; in the code it is
  enough that the button is down 500 ms after its last falling edge. The model follows the code.
- The LED is animated only when an event has been handled (the loop waits for the queue without a
  timeout), so time alone never toggles it. The model follows the code.

## Model

| member | source | states |
|---|---|---|
| DeviceSafety.CallbackTrace | src/LockManager.cpp:184-284 | over every run the initiated and completed callbacks alternate for the same action, actions alternate starting with the one that leaves the booted state, the actuator state is a function of the number of callbacks, and no completion comes before 2000 ms |
| DeviceSafety.CompletionConservation | src/LockManager.cpp:203-284 | in every reachable state, timer armed plus completions queued plus completions dropped is 1 while an action is in progress and 0 otherwise; an action that can start finds its timer idle and no old completion queued, so the "already started" branches are dead |
| DeviceSafety.SyncAccounting | src/AppTask.cpp:621-677 | deferred updates ever scheduled equal the completed actions that the button had started |
| DeviceSafety.ResetSafety | src/AppTask.cpp:502-619 | a factory reset happens at most once per boot, directly after an arming that was not cancelled, is the last thing the reset does, and is not early unless an expiry event was left over at the arming |
| DeviceSafety.ArmedResetIsKept | src/AppTask.cpp:511-619 | while armed, the timer runs, or its expiry is queued, or it was dropped since the arming; a long press then returns to idle |
| DeviceSafety.LedAgreement | src/AppTask.cpp:533-565 | with no action in progress and no reset armed or fired, the LED is steady and lit exactly if the lock is locked, under all interleavings |
| DeviceLed.LedLaw | src/platform/LEDWidget.cpp:62-99 | at every step of every run: starting an action leaves the LED blinking at 50 ms, arming at 500 ms from dark, completing and cancelling leave it steady in the state of the lock, other events only make an overdue toggle, nothing else touches it; after every event no toggle is overdue |
| DeviceLed.RateTells | src/AppTask.cpp:533-565 | the LED blinks at 50 ms only while an action is in progress, and at 500 ms only while a reset is armed or has fired |
| DeviceHistory.QueueLaw | src/AppTask.cpp:689-695 | over every run, the events served followed by those waiting are in order exactly those posted while fewer than ten were waiting, each with its time and, from the button, long exactly if it was down; those dropped are in order exactly the rest |
| DeviceHistory.DebounceFollowsLastEdge | src/ButtonHandler.cpp:63-66 | over every run, the debounce timer runs exactly if an edge has not been followed by an expiry, and then expires 500 ms after the last edge |
| DeviceHistory.OneEventPerBurst | src/ButtonHandler.cpp:63-91 | an edge is possible at any time; the expiry exactly 500 ms after the last edge of a burst, once, and time does not pass that point without it |
| DeviceHistory.UpdatesAreDoneOnce | src/AppTask.cpp:679-729 | over every run, the deferred updates scheduled are those done and those pending |
| DeviceHistory.AttributeIsLastWrite | src/AppTask.cpp:709-729 | over every run, the attribute is what the last accepted command or deferred update wrote, and nothing else writes it |
| DevicePresses.ActionAccounting | src/AppTask.cpp:566-585 | over every run, the actions started are exactly the short presses served at rest and the accepted commands that the lock could follow, and their parity decides where the lock rests |
| DevicePresses.LongPressAccounting | src/AppTask.cpp:533-565 | over every run, long presses arm and cancel in turn until a reset fires: a reset is armed exactly if their number is odd, and fires only after an odd number |
| DeviceSafety.LostCompletionFreezes | src/LockManager.cpp:184-284 | once a completion has been dropped the lock never acts again: in every later run the actuator stays in the middle of its action and no callback is made |
| DeviceSafety.SafeStep | src/AppTask.cpp:398-429 | every step keeps the clock order of the queue, conservation, the trace, the accounting, the reset order and the LED agreement |
| DeviceTiming.DebouncedStep | src/ButtonHandler.cpp:63-91 | queued button events stay at least 500 ms apart, and the next one will be too |
| DeviceTiming.OneExpiryStep | src/AppTask.cpp:502-524 | where events wait less than 5000 ms, at most one reset expiry is queued, and it belongs to the arming in force or was left over when it was made |
| DeviceCapacity.FewButtonEvents | src/ButtonHandler.cpp:63-91 | at most eight button events fit into 4000 ms, seven if another is about to be posted |
| DeviceCapacity.RoomForExpiry | src/AppTask.cpp:689-695 | when any timer is about to post, the queue of ten has room, if all events in it are younger than 4000 ms |
| DeviceCapacity.BoundedResponse | src/LockManager.cpp:184-284 | with events served within 4000 ms every accepted action completes no earlier than 2000 ms and earlier than 6000 ms after acceptance, and no such run gets past that time with the action unfinished |
| DeviceCapacity.ResetTiming | src/AppTask.cpp:502-619 | in such runs a reset is early exactly if an expiry event was queued at its arming, and every arming ends within 9000 ms |
| DeviceWitnesses.QueueCapacity | src/AppTask.cpp:85-88 | no event is ever lost in any run that serves each event within the limit, exactly if the limit is at most 4000 ms; and no completion is, exactly if it is |
| DeviceWitnesses.Overflow | src/AppTask.cpp:689-695 | for any larger limit a run from boot that respects it and loses the completion of a remote command |
| DeviceWitnesses.EarlyReset | src/AppTask.cpp:511-524 | a run, with every event served in time, in which a reset fires in the millisecond of its arming |
| DeviceWitnesses.TimePasses | src/AppTask.cpp:398-429 | from every reachable state due timers can expire and events be served so that a millisecond passes and no event has waited |
| DeviceAgreement.AttributeAgreement | src/LockManager.cpp:652-709 | in every run in which each accepted remote command is harmless, the attribute agrees with the actuator at every quiescent state |
| DeviceAgreement.OneAtATimeAgrees | src/ZclCallbacks.cpp:64-89 | if commands are accepted only with no action in progress and no update pending, the attribute agrees at every quiescent state of the run |
| DeviceAgreement.HarmlessIsExact | src/ZclCallbacks.cpp:64-89 | in every state reached by harmless commands, a command keeps agreement in all later quiescent states exactly if it is harmless or a lost completion means that there are none |
| DeviceAgreement.WillAgreeIsExact | src/AppTask.cpp:646-729 | a reached state will agree at all later quiescent states exactly if it agrees now, or the updates to come correct it, or a completion was lost |
| DeviceAgreement.RestIsReachable | src/LockManager.cpp:248-284 | from every reached state the lock can come to rest exactly if no completion was lost |
| DeviceAgreement.OverlappingCommands | src/ZclCallbacks.cpp:64-89 | two overlapping remote commands end quiescent with attribute Locked and the lock unlocked |
| DeviceAgreement.AgreementFromAnyBoot | src/LockManager.cpp:90-93 | in every run of harmless commands from any attribute, a quiescent state disagrees exactly if the device booted with neither Locked nor Unlocked and no command was accepted and no action started since |
| DeviceAgreement.Complete | src/LockManager.cpp:248-284 | a running action whose completion was not lost can complete, with no other effect on the attribute than the update it schedules |
| DeviceAgreement.PressCarriesThrough | src/AppTask.cpp:566-585 | a short press served at rest can run its course to the opposite state, with the attribute in agreement |
| LockSystem.PinDecision | src/LockManager.cpp:652-709 | in every state of the store reached from factory-new by calls with data inside the buffer, reboots and power losses, a PIN is accepted exactly if one of the ten nameable PIN credentials holds it, and a missing PIN exactly if none is required |
| LockSystem.RemoteActionsAreAuthorised | src/ZclCallbacks.cpp:64-89 | over every history of commands, presses, timers, credential calls, reboots and power losses, behind each remote action there is a command for it, made at its time, whose PIN one of the ten nameable credentials held at that moment, or that had none while none was required |
| LockSystem.CommandsTakeEffect | src/LockManager.cpp:652-709 | at every point of such a history the attribute changes only by a restart, a deferred update or an authorised command, and a command has its effect exactly if it is authorised, and none otherwise |
| LockSystem.DeviceTakesRuns | src/AppTask.cpp:398-429 | in every such history the application has taken a run from its last boot, so what holds of runs holds in histories |
| LockSystem.StoreTakesRuns | src/LockManager.cpp:134-166 | and the credential store has taken a run from factory-new |
| Application.DoorLockApp.Move | src/LockManager.cpp:652-709 | the object and its store take one move, a command being decided from its PIN |
| Application.Drive | src/AppTask.cpp:303-341 | objects driven through any history, a reboot booting new ones from flash, end as the history says |
| Application.DoorLockApp.LockMgrInit | src/AppTask.cpp:303-341 | boots actuator state and LED from the attribute |
| Application.DoorLockApp.PostEvent | src/AppTask.cpp:689-695 | appends the event with the time, or, if ten are waiting, leaves the queue as it is and drops the event |
| Application.DoorLockApp.InitiateAction | src/LockManager.cpp:184-218 | starts the action, its timer, its callback and the blinking exactly if the lock rests in the other state |
| Application.DoorLockApp.StartLockTimer | src/LockManager.cpp:220-237 | the actuator timer runs for the given time from now |
| Application.DoorLockApp.LockTimerExpired | src/LockManager.cpp:248-258 | the expiry of the actuator timer posts its event |
| Application.DoorLockApp.ActuatorMovementTimerEventHandler | src/LockManager.cpp:260-284 | completes the running action, shows it, and schedules the update for a button action |
| Application.DoorLockApp.SetLockState | src/LockManager.cpp:652-709 | accepts as decided by PIN table and requirement, writes the attribute exactly on acceptance, sets the error exactly on a supplied PIN with no match |
| Application.DoorLockApp.OnDoorLockCommand | src/ZclCallbacks.cpp:64-89 | an accepted command writes the attribute and then tries to start the action |
| Application.DoorLockApp.ActionInitiated | src/AppTask.cpp:621-644 | remembers a button action and blinks the LED |
| Application.DoorLockApp.ActionCompleted | src/AppTask.cpp:646-677 | shows the new state and schedules the update for a button action |
| Application.DoorLockApp.UpdateCluster | src/AppTask.cpp:709-729 | the deferred work writes Unlocked exactly if the lock rests unlocked |
| Application.DoorLockApp.StartTimer | src/AppTask.cpp:600-619 | the reset timer runs for the given time from now and is active |
| Application.DoorLockApp.CancelTimer | src/AppTask.cpp:589-598 | the reset timer is stopped and inactive |
| Application.DoorLockApp.FunctionTimerExpired | src/AppTask.cpp:502-509 | the expiry of the reset timer posts its event |
| Application.DoorLockApp.FunctionTimerEventHandler | src/AppTask.cpp:511-524 | resets exactly if armed |
| Application.DoorLockApp.FunctionHandler | src/AppTask.cpp:526-587 | long presses arm and cancel, short presses start the opposite action |
| Application.DoorLockApp.AppTaskTurn | src/AppTask.cpp:398-429 | takes the oldest event, handles it, and leaves the LED with no toggle overdue |
| Application.DoorLockApp.FuncButtonCallback | src/ButtonHandler.cpp:63-66 | a falling edge starts the debounce timer anew, also a running one: 500 ms from now |
| Application.DoorLockApp.ButtonTimerCallback | src/ButtonHandler.cpp:68-91 | the debounce expiry posts a long press if the button is still down, a short one otherwise |
| Application.DoorLockApp.PerformAll | src/AppTask.cpp:398-429 | the object driven through any run ends in the state that the run gives, so all run properties hold of it |
| Led.LEDWidget.Set | src/platform/LEDWidget.cpp:62-66 | the LED is steady in the given state |
| Led.LEDWidget.Blink | src/platform/LEDWidget.cpp:78-83 | sets the on and off times and toggles at once exactly if the new dwell is over |
| Led.LEDWidget.Animate | src/platform/LEDWidget.cpp:85-108 | toggles exactly if the LED blinks and its dwell is over |
| Led.BlinkRate | src/platform/LEDWidget.cpp:85-99 | two toggles are further apart than all on and off times between them, for any polling |
| Led.BlinkPeriod | src/platform/LEDWidget.cpp:85-99 | k cycles take at least k times the period plus two milliseconds each |
| Led.TogglesInTime | src/platform/LEDWidget.cpp:85-99 | polled every gap milliseconds, a toggle is at most that late and none is overdue after the last poll |
| Led.SetIsSteady | src/platform/LEDWidget.cpp:62-66 | after Set no polling toggles the LED |
| CredentialStore.SlotsAreDistinct | src/LockManager.cpp:103-117 | exactly (0, 0) and the types 1 to 5 with index 1 to 10 have a slot, after the 16-bit decrement, and rows of distinct keys do not overlap |
| CredentialStore.Credentials.ReadConfigValues | src/LockManager.cpp:134-166 | boots memory from zeros and flash |
| CredentialStore.Credentials.GetCredential | src/LockManager.cpp:401-441 | rejects what is no key and reads the credential of a key |
| CredentialStore.Credentials.SetCredential | src/LockManager.cpp:443-484 | a rejected call changes nothing; an accepted one changes one record and its bytes and writes flash twice, records first |
| CredentialStore.Credentials.MatchPin | src/LockManager.cpp:681-700 | the loop finds a PIN exactly if one of the hundred PIN records is occupied with equal bytes |
| CredentialProperties.StoreIsAMap | src/LockManager.cpp:401-484 | over any sequence of reboots and of calls whose data ends before the next row that a key names, from factory-new, the store answers as a map from type and external index to credential |
| CredentialProperties.OthersUntouched | src/LockManager.cpp:474-479 | one such operation, completed or cut off after any flash write, leaves every other credential as it was |
| CredentialProperties.UnnamedUntouched | src/LockManager.cpp:443-484 | a credential that no operation names survives any run of such calls, reboots and power losses |
| CredentialProperties.PowerLoss | src/LockManager.cpp:474-479 | the credential being set, with data of any length inside the buffer, is afterwards the old one, the new one, or the new record over the old bytes |
| CredentialProperties.BytesOverRuns | src/LockManager.cpp:470-479 | over any run of calls with data inside the buffer, reboots and power losses, every byte of the buffer is the one that the last call to reach it wrote, also behind a shorter value in the same row |
| CredentialProperties.SetInStore | src/LockManager.cpp:443-484 | the class takes this step, also with data beyond the row, and flash goes through exactly the contents a power loss can leave |
| CredentialProperties.PerformAll | src/LockManager.cpp:134-166 | the class driven through any sequence of calls and reboots ends in the state of the run |
| CredentialProperties.PinCheckIsAboutCredentials | src/LockManager.cpp:681-700 | in every state reached from factory-new by calls with data inside the buffer, reboots and power losses, also after data has run over into other rows, the loop over all records decides about the ten nameable credentials |
| CredentialProperties.RoomIsExact | src/LockManager.cpp:470-472 | setting a credential leaves all others alone, in every state reached from factory-new by calls whose data fits, exactly if its own data ends before the next row that a key names: 20 bytes, 1820 for index 10, 2000 for the programming PIN |
| UserStore.Init | src/LockManager.cpp:36-80 | fails exactly if one of the five parameters is above ten, and otherwise boots |
| LockManagerInit.LimitsAreTheTables | include/LockManager.h:50-62 | parameters are accepted exactly if users have rows, their credentials have indices and the three schedule tables have room, ten of each included |
| LockManagerInit.Start | src/LockManager.cpp:36-166 | Init succeeds exactly if the tables have room, and then the user table and the three schedule tables boot with these sizes |
| UserStore.Users.ReadConfigValues | src/LockManager.cpp:134-150 | boots memory from zeros and flash |
| UserStore.Users.GetUser | src/LockManager.cpp:296-336 | reads the user and hands out spans into its own rows |
| UserStore.Users.CopyString | src/LockManager.cpp:372-373 | copies what fits and a NUL, also when the source is a row of the table |
| UserStore.Users.CopyCredentials | src/LockManager.cpp:381-384 | the loop copies the credentials as they were at its start, also out of the table itself, inside the row |
| UserStore.Users.SetUser | src/LockManager.cpp:338-399 | a rejected call changes nothing; an accepted one changes one user and writes flash three times |
| UserProperties.SetThenGet | src/LockManager.cpp:296-399 | a user reads back as set exactly if it is absent, or its name is shorter than the row or ends in NUL |
| UserProperties.HandingBackIsIdentity | src/LockManager.cpp:315-316 | setting a user from the spans just read is accepted and changes no user |
| UserProperties.OthersUntouched | src/LockManager.cpp:386-394 | one operation, completed or cut off after any flash write, leaves every other saved user as it was |
| UserProperties.UnnamedUntouched | src/LockManager.cpp:338-399 | a saved user that no operation names survives any run of calls, reboots and power losses |
| UserProperties.ReloadBoundary | src/LockManager.cpp:386-394 | after a completed call a reboot brings back all saved users, and the user just set exactly if it is among the first `numberOfUsers` |
| UserProperties.PowerLoss | src/LockManager.cpp:386-394 | a saved user being set is afterwards, by the number of writes done, the old one, the new record over old credentials and name, the new record and credentials over the old name, or the new one; a user that is not saved is gone |
| UserProperties.NamesOverRuns | src/LockManager.cpp:372-394 | over any run of calls with sources of any kind, reboots and power losses, every place of the name table holds what was last written to it, also behind the end of a shorter name |
| UserProperties.CredentialsOverRuns | src/LockManager.cpp:381-394 | the same for the credential table, in which a restart forgets the rows of unsaved users |
| UserProperties.SetInStore | src/LockManager.cpp:338-399 | the class takes this step, and flash goes through exactly the contents a power loss can leave |
| UserProperties.PerformAll | src/LockManager.cpp:296-399 | the class, driven through any sequence of calls with spans from GetUser and restarts, ends in the state of the run |
| UserProperties.StoreIsAMap | src/LockManager.cpp:296-399 | over any sequence from factory-new of restarts, handed-back users, and calls whose name and credentials are new or are spans just read from any user, users read as a map from external index says |
| ScheduleStore.TableRoundTrip | src/LockManager.cpp:486-631 | a schedule reads back where it was set and no other entry changes |
| ScheduleStore.ReloadedSchedule | src/LockManager.cpp:152-163 | what each record reads as after a reload: unchanged within the saved prefix, not found beyond it, its schedule running into zeros across its end |
| ScheduleStore.ReloadBoundary | src/LockManager.cpp:533-536 | record k survives, whatever its content, exactly if (k+1) times the record size is within the schedule size times the count, for all sizes and counts |
| ScheduleStore.SurvivingSchedules | src/LockManager.cpp:152-163 | for all lock parameters, schedule i of user u survives exactly if ((u-1)*10+i) times the record size is within the schedule size times users times schedules per user |
| ScheduleStore.LastScheduleIsLost | src/LockManager.cpp:533-536 | the last schedule of the last user in use never survives |
| ScheduleStore.TableIsItsCells | src/LockManager.cpp:486-631 | over any sequence of calls and reboots each schedule reads as if it were alone: set by its own calls, cut by reboots to what was saved of it, touched by nothing else |
| ScheduleStore.SchedulesOverRuns | src/LockManager.cpp:486-631 | over any sequence of calls and reboots, a schedule within the bound reads as last set, and one wholly beyond it as set since the last reboot |
| ScheduleStore.PerformAll | src/LockManager.cpp:510-539 | the class driven through any sequence of calls and reboots ends in the state of the run |
| ScheduleStore.ScheduleTable.SetSchedule | src/LockManager.cpp:510-539 | fails outside the indices; otherwise sets one record and saves the prefix |
| ScheduleStore.ScheduleTable.GetSchedule | src/LockManager.cpp:486-508 | fails outside the indices; otherwise reads the record or finds none |
| ScheduleStore.ScheduleTable.ReadConfigValues | src/LockManager.cpp:152-163 | a reboot reads the saved prefix back over zeros |
| UserLabels.RecordRoundTrip | src/providers/DeviceInfoProviderImpl.cpp:80-97 | a record decodes to its label, each string up to its first separator, whatever follows it in the buffer |
| UserLabels.DecodesExactlyRecords | src/providers/DeviceInfoProviderImpl.cpp:128-155 | decoding succeeds exactly on buffers that begin with a record |
| UserLabels.LabelRoundTrip | src/providers/DeviceInfoProviderImpl.cpp:110-163 | iterating yields exactly the stored labels in order, exactly if all strings are within the limits and free of NUL and separator |
| UserLabels.LabelsReadAs | src/providers/DeviceInfoProviderImpl.cpp:120-163 | stored labels of any length and content all read back in order, each string as what comes before its first separator or NUL, at most 16 bytes |
| UserLabels.StopsAtFirstUnreadable | src/providers/DeviceInfoProviderImpl.cpp:120-163 | iteration yields the readable records in order and stops at the first unreadable one, the stored total or the end of the 32-bit indices |
| UserLabels.DeviceInfoProvider.SetUserLabelAt | src/providers/DeviceInfoProviderImpl.cpp:80-97 | stores the record exactly if the index has 32 bits, the SDK's writer takes both strings and they have at most 34 bytes together, and changes nothing otherwise |
| UserLabels.UserLabelIterator.constructor | src/providers/DeviceInfoProviderImpl.cpp:110-118 | starts at zero with the stored total, or zero if there is none |
| UserLabels.UserLabelIterator.Next | src/providers/DeviceInfoProviderImpl.cpp:120-163 | yields the next label and advances, or reports the end and stays |
| UserLabels.ReadAll | src/providers/DeviceInfoProviderImpl.cpp:105-163 | a reader's loop ends and collects what the iteration yields |
| UserLabels.WriteAll | src/providers/DeviceInfoProviderImpl.cpp:67-97 | a caller's loop over the two setters stores a record for every label and their number exactly if all are accepted and fit, and touches no other endpoint |
| UserLabels.WriteThenRead | src/providers/DeviceInfoProviderImpl.cpp:67-163 | a list is written exactly if its strings are taken and within 34 bytes a label; then every label reads back as far as a reader gets, and the list as it was exactly if all can be shown |

## Left out

- Display and touch screen, icons, and the display branches of the handlers.
- Networking, commissioning, attestation, over-the-air update, watchdog and platform start-up.
- Generated data-model tables and the remaining cluster callbacks, which only forward.
- Internals of the door lock server (wrong-code limits, relocking, alarms); only its attribute write is modelled.
- Data races inside one handler: the code takes no locks, and each handler is one atomic step here.
- `ActionRequest` and its handler, which nothing calls; the parameter builder, log texts and fixed locale and calendar lists.
- The board variant whose function button has index 1 while only one button timer exists.
- The creation and modification sources of users and credentials, which are constants.
- Users.ReadConfigValues: parameters beyond the limits are excluded, because the application stops when `Init` refuses them.
- SetCredential: data that would run past the end of the whole buffer is excluded by a precondition; data that runs past its own row is not.
- StoreIsAMap: of the credential store, and with it OthersUntouched and UnnamedUntouched, excludes data that reaches the row of another key, where the property is false (`RoomIsExact`). Of the user store, it takes spans as just read; for spans kept while the store changed, which may hold leftovers of longer values, there is `SetThenGet` for each call.
- Label records in encodings that the writer never produces (longer length fields), and a check of strings on reading, which the SDK's configuration can turn on.
- `TLV::EstimateStructOverhead`, `CopyString`, the TLV reader and writer and the flash driver are not part of the repository; their behaviour is stated where they are modelled.
