# Mi Band session controller

This is a Dafny model of `MiBandService`, the object in the inFullBand iOS app that owns the
Bluetooth LE session with a Xiaomi Mi Band. It keeps:

- the active peripheral;
- the list of discovered peripherals;
- the list of polled ("updatable") characteristics;
- cached references to the heart-rate control point and to the alert characteristic;
- a keep-alive timer.

Each public action and each CoreBluetooth delegate callback is a short sequential transition
over those fields. A transition asks the Bluetooth stack for something (scan, stop scan,
connect, cancel, discover services, read, write with or without response, switch on
notifications) and writes log entries. Value updates go through
`handleCharacteristicValueUpdate`, which cuts fixed byte slices out of a characteristic's value
according to its identity.

The files:

- `protocol.dfy` (`MiProtocol`): characteristic identities and the UUID catalog, the polled and
  subscribed sets, the commands and alert modes, and the peripheral and characteristic handles.
- `decoder.dfy` (`PayloadDecoder`): `handleCharacteristicValueUpdate` as the pure function
  `Decode`.
- `effects.dfy` (`SessionEffects`): the actions and log entries the controller emits. It also
  holds the pure functions that say what a stats update, negotiation and a value update must
  emit, and the lemmas about them.
- `service.dfy` (`MiBandSession`): the class `MiBandService`, with the Swift class's fields plus
  two more. `trace` records every request made of the Bluetooth stack and the health store, in
  order. `logs` records every log entry, in order. Each action and callback is a method, proved
  against the functions of `SessionEffects`.
- `scenarios.dfy` (`SessionScenarios`): event sequences run on a fresh session, pinning down the
  exact traces their contracts add up to.

### Edge cases the model follows

- **Short payloads trap.** `handleCharacteristicValueUpdate` has no length check. A value that
  is too short for an index or a slice the handler actually evaluates makes it trap. So `Decode`
  and `ValueUpdated` require `Indexable`, and no "truncated" result exists. For date-time,
  heart rate and battery the shortest safe value is fixed: 7, 2 and 18 bytes (`MinLength`).
  Activity is a `guard let` chain that stops at the first counter that fails to convert. It
  needs 5 bytes to slice the steps, 9 once the steps convert, and 13 once the meters convert.
  A shorter value whose earlier counter failed returns at the guard without trapping and
  decodes to `Undecodable`.
- **No state enum.** Readiness is only "a device is held and the needed reference is cached"
  (`HeartRateReady`, `AlertReady`). A failed guard logs one error entry and changes nothing else.
- **A failed connect only logs.**
- **References survive the device.** Setting the active device, to a peripheral or to nil,
  empties only the polled list. The control-point and alert references and the timer are never
  cleared.
- **The timer.** `startMonitoringHeartRate` itself writes nothing. It makes a timer that captures
  the device and control point held at that moment, and resumes it. The timer's immediate first
  fire, and every later one, is the separate event `TimerFired`. `stopMonitorigHeartRate`
  suspends an implicitly unwrapped timer, so it requires that one exists once its guard passes.
- **Error entries go to the ordinary log.** `errorLog` passes them to `externalLog`. The model
  marks them with the channel `Error` so the guards' contracts can name them.

## Model

| member | source | states |
|---|---|---|
| MiProtocol.IsUpdatable | inFullBand/Communication/MiBandService.swift:247 | a characteristic is polled exactly when its UUID names date-time, activity or battery |
| MiProtocol.IsMonitored | inFullBand/Communication/MiBandService.swift:251 | a characteristic is subscribed exactly when its UUID names heart-rate measurement or activity |
| MiProtocol.IsPlaceholderName | inFullBand/Communication/MiBandService.swift:204 | a peripheral is ignored exactly when its name starts with "Unnamed" (code-point prefix; see "Left out") |
| MiProtocol.CatalogMembership | inFullBand/Communication/MiBandService.swift:21-22 | only date-time, activity and battery are polled; only heart-rate measurement and activity are subscribed; control point and alert are neither |
| PayloadDecoder.MinLength | inFullBand/Communication/MiBandService.swift:157-190 | the handler indexes nothing for control point and alert, and for every other identity it needs at least one byte |
| PayloadDecoder.ActivityLongEnough | inFullBand/Communication/MiBandService.swift:177-179 | the activity handler slices bytes 1-4 always, bytes 5-8 only once the steps convert, and bytes 9-12 only once the meters convert, so those are the lengths it needs |
| PayloadDecoder.Indexable | inFullBand/Communication/MiBandService.swift:160-185 | the shortest value the handler evaluates without trapping, per identity |
| PayloadDecoder.Decode | inFullBand/Communication/MiBandService.swift:157-190 | date-time decodes bytes 0-6; heart rate is byte 1; activity is steps, meters and calories from bytes 1-4, 5-8 and 9-12; battery is byte 1 plus a last-charge date from bytes 11-17; each reading exists exactly when its converters succeed; control point and alert decode to nothing; any value the handler does not trap on is accepted |
| PayloadDecoder.ActivityStopsAtSteps | inFullBand/Communication/MiBandService.swift:177 | an activity value of at least 5 bytes whose steps do not convert is handled without trapping and decodes to nothing |
| PayloadDecoder.ActivityStopsAtMeters | inFullBand/Communication/MiBandService.swift:178 | an activity value of at least 9 bytes whose meters do not convert is handled without trapping and decodes to nothing |
| PayloadDecoder.DateTimeLengthTight | inFullBand/Communication/MiBandService.swift:161 | a 7-byte date-time value is decoded, and its byte 6 changes the result when the date converter is injective |
| PayloadDecoder.HeartRateLengthTight | inFullBand/Communication/MiBandService.swift:165 | a 2-byte heart-rate value is decoded, and its byte 1 changes the result |
| PayloadDecoder.BatteryLengthTight | inFullBand/Communication/MiBandService.swift:183-184 | an 18-byte battery value is decoded, and its byte 17 changes the result when the date converter is injective |
| PayloadDecoder.ActivityLengthTight | inFullBand/Communication/MiBandService.swift:177-179 | a 13-byte activity value with all three counters is decoded, and its byte 12 changes the result when the counter converter is injective |
| PayloadDecoder.LastChargeMatchesDateTime | inFullBand/Communication/MiBandService.swift:160-185 | a battery value whose bytes 11-17 equal a date-time value's bytes 0-6 decodes (or fails) to the same date |
| PayloadDecoder.ActivityIgnoresFlagsAndTail | inFullBand/Communication/MiBandService.swift:177-179 | two activity values that agree on bytes 1-12 decode alike: byte 0 and the tail are never read |
| SessionEffects.ReadsOf | inFullBand/Communication/MiBandService.swift:84-86 | one read per characteristic, in list order |
| SessionEffects.ReadsOfTargets | inFullBand/Communication/MiBandService.swift:84-86 | a stats update reads exactly the polled list and subscribes to nothing |
| SessionEffects.TargetsAppend | inFullBand/Communication/MiBandService.swift:243 | the reads and subscriptions of two traces in sequence are those of each, concatenated |
| SessionEffects.NegotiationActions | inFullBand/Communication/MiBandService.swift:243-253 | the reads and notifies negotiation emits for a list, each characteristic's in list order |
| SessionEffects.NegotiationOnlyReadsAndSubscribes | inFullBand/Communication/MiBandService.swift:243-253 | negotiation only reads and switches notifications on, always on the device whose characteristics were found; it never writes or switches them off |
| SessionEffects.Updatables | inFullBand/Communication/MiBandService.swift:247-250 | the polled list negotiation appends: no longer than the list, and every element has a polled identity |
| SessionEffects.Monitored | inFullBand/Communication/MiBandService.swift:251-253 | the subscribed characteristics of a list: no longer than the list, and every element has a monitored identity |
| SessionEffects.LastSeen | inFullBand/Communication/MiBandService.swift:255-262 | the cached reference after negotiation: the last characteristic with that identity, or the one held before |
| SessionEffects.CharActions | inFullBand/Communication/MiBandService.swift:245-253 | date-time and battery get one read; activity gets a read, then a notify; heart-rate measurement gets one notify; control point, alert and unknown UUIDs get no action |
| SessionEffects.CharTargets | inFullBand/Communication/MiBandService.swift:247-253 | one characteristic is read exactly when it is polled and subscribed exactly when it is monitored |
| SessionEffects.NegotiationTargets | inFullBand/Communication/MiBandService.swift:243-253 | over a whole list, negotiation reads exactly the polled characteristics and subscribes exactly the monitored ones, each once and in list order |
| SessionEffects.UpdatablesFilter | inFullBand/Communication/MiBandService.swift:247-250 | the polled list negotiation appends holds exactly the discovered characteristics with a polled identity |
| SessionEffects.MonitoredFilter | inFullBand/Communication/MiBandService.swift:251-253 | the subscribed characteristics are exactly the discovered ones with a monitored identity |
| SessionEffects.LastSeenHasIdentity | inFullBand/Communication/MiBandService.swift:255-262 | a cached reference after negotiation is the previous one, or a discovered characteristic with the right identity |
| SessionEffects.LastSeenIsLast | inFullBand/Communication/MiBandService.swift:255-262 | the cached reference is the last discovered characteristic with that identity |
| SessionEffects.LastSeenKeepsPrevious | inFullBand/Communication/MiBandService.swift:255-262 | a list without that identity leaves the previous reference in place |
| SessionEffects.NegotiationStep | inFullBand/Communication/MiBandService.swift:243-263 | negotiating one more characteristic extends the trace, the polled list and each cached reference by that characteristic's share alone |
| SessionEffects.NegotiationActionsAppend | inFullBand/Communication/MiBandService.swift:243-263 | negotiating two lists in sequence emits the two traces concatenated |
| SessionEffects.UpdatablesAppend | inFullBand/Communication/MiBandService.swift:247-250 | negotiating two lists in sequence appends the two polled lists concatenated |
| SessionEffects.LastSeenAppend | inFullBand/Communication/MiBandService.swift:255-262 | negotiating two lists in sequence caches what the second list caches, starting from what the first left |
| SessionEffects.UnrecognisedHasNoEffect | inFullBand/Communication/MiBandService.swift:245 | inserting a characteristic with an unknown UUID anywhere in the list changes neither the trace, nor the polled list, nor either cached reference |
| SessionEffects.ReadingEffects | inFullBand/Communication/MiBandService.swift:160-189 | every decoded reading is logged once; a heart rate is saved exactly when it is above zero; a failed conversion or an ignored identity logs and saves nothing |
| SessionEffects.IsDispatched | inFullBand/Communication/MiBandService.swift:268-269 | a value update reaches the handler only for a known UUID with a polled or subscribed identity |
| SessionEffects.PayloadLongEnough | inFullBand/Communication/MiBandService.swift:268-281 | a dispatched present value must be `Indexable` for its identity; anything else needs nothing, since it returns before indexing |
| SessionEffects.ValueUpdateEffects | inFullBand/Communication/MiBandService.swift:266-282 | only a present value of a polled or subscribed characteristic has any effect; control point, alert and unknown UUIDs have none; a heart rate always logs byte 1; a date-time logs the date of bytes 0-6 exactly when it converts; a battery logs byte 1 and the date of bytes 11-17 exactly when that converts; an activity logs steps, meters and calories of bytes 1-4, 5-8, 9-12 exactly when all three convert; the only action ever emitted is saving byte 1 of a heart-rate value, and only when it is positive |
| MiBandSession.MiBandService.Valid | inFullBand/Communication/MiBandService.swift:204-262 | the session invariant every method keeps: listed peripherals have real names, the polled list holds only polled characteristics, and each cached reference and the timer's control point has its own identity |
| MiBandSession.MiBandService.HeartRateReady | inFullBand/Communication/MiBandService.swift:90 | the guard of start, stop and single measurement (lines 90, 108, 120): a device and a control point are held |
| MiBandSession.MiBandService.AlertReady | inFullBand/Communication/MiBandService.swift:129 | the guard of the three alert operations (lines 129, 138, 147): a device and an alert characteristic are held |
| MiBandSession.MiBandService.constructor | inFullBand/Communication/MiBandService.swift:37-58 | a new session holds no device, lists and references, and has emitted nothing |
| MiBandSession.MiBandService.SetMiBand | inFullBand/Communication/MiBandService.swift:28-35 | assigning the active device, to a peripheral or to nil, empties the polled list and keeps both cached references |
| MiBandSession.MiBandService.DiscoverPeripherals | inFullBand/Communication/MiBandService.swift:62-64 | emits one scan |
| MiBandSession.MiBandService.ConnectToPeripheral | inFullBand/Communication/MiBandService.swift:66-68 | emits one connect to the peripheral at that index, which must be in range |
| MiBandSession.MiBandService.Disconnect | inFullBand/Communication/MiBandService.swift:70-76 | cancels the connection to the held device, or logs one error and emits nothing when none is held |
| MiBandSession.MiBandService.UpdateStats | inFullBand/Communication/MiBandService.swift:78-87 | with a device held, logs once and emits one read per polled characteristic in list order, each of a characteristic with a polled identity; without one, one error and no read; no field but the trace and log changes |
| MiBandSession.MiBandService.StartMonitoringHeartRate | inFullBand/Communication/MiBandService.swift:89-105 | when ready, a resumed timer capturing the current device and control point replaces the old one; otherwise one error entry, timer unchanged; never a write |
| MiBandSession.MiBandService.TimerFired | inFullBand/Communication/MiBandService.swift:96-103 | a resumed timer's tick writes stop monitoring and then start monitoring, with response, to the captured device and control point, and logs once; a suspended or missing timer does nothing |
| MiBandSession.MiBandService.StopMonitoringHeartRate | inFullBand/Communication/MiBandService.swift:107-117 | when ready, suspends the timer and writes stop monitoring and then stop measurement, with response, to the control point; otherwise one error entry and nothing else |
| MiBandSession.MiBandService.MeasureHeartRate | inFullBand/Communication/MiBandService.swift:119-126 | when ready, one start-measurement write with response, timer untouched; otherwise one error entry and no write |
| MiBandSession.MiBandService.WriteAlert | inFullBand/Communication/MiBandService.swift:128-153 | when the alert is ready, one single-byte write without response to the alert characteristic; otherwise one error entry and no write |
| MiBandSession.MiBandService.SetHighAlert | inFullBand/Communication/MiBandService.swift:128-135 | writes the high alert mode, or logs one error when not ready |
| MiBandSession.MiBandService.SetMildAlert | inFullBand/Communication/MiBandService.swift:137-144 | writes the mild alert mode, or logs one error when not ready |
| MiBandSession.MiBandService.UnsetAlert | inFullBand/Communication/MiBandService.swift:146-153 | writes the off alert mode, or logs one error when not ready |
| MiBandSession.MiBandService.BluetoothStateUpdated | inFullBand/Communication/MiBandService.swift:195-201 | logs the state; scans exactly when Bluetooth is on and no device is held |
| MiBandSession.MiBandService.Discover | inFullBand/Communication/MiBandService.swift:203-210 | a device whose name starts with "Unnamed" changes nothing; any other is appended at the end of the list, prefix unchanged, with one special-log entry |
| MiBandSession.MiBandService.Connected | inFullBand/Communication/MiBandService.swift:212-217 | adopts the device, empties the polled list, emits stop scan and then discover services, logs once |
| MiBandSession.MiBandService.FailedToConnect | inFullBand/Communication/MiBandService.swift:219-221 | logs one error and changes nothing else |
| MiBandSession.MiBandService.Disconnected | inFullBand/Communication/MiBandService.swift:223-228 | without an error, drops the device and empties the polled list; with one, keeps both; the cached references survive either way |
| MiBandSession.MiBandService.CharacteristicsDiscovered | inFullBand/Communication/MiBandService.swift:240-264 | the trace, polled list and cached references become exactly what negotiating the whole list in order gives, and the session invariant is kept |
| MiBandSession.MiBandService.NegotiateCharacteristic | inFullBand/Communication/MiBandService.swift:245-262 | one characteristic's read and notify, its polled-list append and its reference update |
| MiBandSession.MiBandService.ValueUpdated | inFullBand/Communication/MiBandService.swift:266-282 | emits exactly the value update's effects: per identity, the decoded reading's log entry and, for a positive heart rate, its save |
| SessionScenarios.KeepAliveScenario | inFullBand/Communication/MiBandService.swift:89-117 | connect, negotiate, start, tick, stop, tick: one keep-alive pair, then the two stop commands, and the tick after stopping sends nothing (ticks are atomic events here; see "Left out") |
| SessionScenarios.CleanDisconnectScenario | inFullBand/Communication/MiBandService.swift:28-35 | after a clean disconnect, a stats update and a start each only log an error, and the control point stays cached |
| SessionScenarios.DroppedLinkScenario | inFullBand/Communication/MiBandService.swift:223-228 | after a link lost with an error, a stats update still reads exactly the polled characteristics negotiation found, from the same device |

## Left out

- `peripheral(_:didDiscoverServices:)` only asks for the characteristics of each service, so it is not modelled. `Connected` ends with the request to discover services.
- Delegate wiring (`oldValue?.delegate = nil`, `miBand.delegate = self`) is not modelled. The model does not track which peripheral has the controller as its delegate, so it accepts peripheral callbacks that Swift would not deliver, such as a value update in flight from the old device after a clean disconnect.
- The lazy central manager, `parentViewController` and the UI alerts are not modelled; they add no request and no log entry.
- `print` and hex dumps are left out; they are console output only.
- HealthKit authorisation and the save's completion handler are left out. A save is recorded only as the request `SaveHeartRate(bpm)`, with the byte rather than a `Double`.
- Timing is left out: the five-minute period, real-time scheduling and the `DispatchQueue.main.async` hop are outside the model. The timer is an armed flag plus explicit tick events, each running atomically.
- TimerFired: the model does not capture a tick whose handler fired before `stopMonitorigHeartRate` suspended the timer. Its block, queued on the main queue, still writes stop and start monitoring after the stop's two writes. So the "nothing after stopping" of `KeepAliveScenario` holds only for ticks that fire after the suspension.
- StartMonitoringHeartRate: the model keeps only the newest timer. It does not capture what happens to the replaced one: whether it keeps firing, and that releasing a suspended dispatch source (after a stop, then a start) is a client crash in libdispatch.
- The internals of `DateComponents.from`, `UInt32.from`, `MiCommand`, `AlertMode`, `realName` and the UUID table of `MiCharacteristicID` are not part of this model. The converters are fields of `Codec`, constrained only where a lemma says so (injectivity in the tightness lemmas). Commands and modes are symbolic payloads, and `realName` is a field of `Peripheral`.
- Identify: is a lookup in the `Catalog` parameter, which stands for the UUID table of `MiCharacteristicID(rawValue:)`. Its contract only restates that lookup, since the UUID strings are outside this model. The uniqueness of Swift raw values is not stated either.
- IsPlaceholderName: tests the "Unnamed" prefix on code points. Swift's `starts(with:)` compares extended grapheme clusters. A name such as "Unnamed" followed by a combining accent and " Band" is kept by Swift, since its seventh character is "d" with the accent, but is dropped by the model.
- The other cases of `MiCharacteristicID` are left out. Negotiation skips them once it has checked the polled and subscribed lists: they fall to the `default:` of its reference switch. The value handler never receives them, because they are neither polled nor subscribed.
- Log wording and emoji are left out. Only the channel (ordinary, special, error) and the topic are kept. Error entries really go to the ordinary log.
- The Bluetooth state is reduced to "powered on or not", since that is all the controller acts on.
