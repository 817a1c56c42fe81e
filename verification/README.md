# A verified model of the MGL03 HomeKit bridge

The bridge turns duplicated, reordered and occasionally lost Bluetooth reports into
HomeKit state. This project models the parts of it whose behaviour depends on order,
time or failure, and proves what they guarantee:

- **Frames and brushing sessions.** `Deduplicator.dfy` holds the one-byte frame
  counters, `Brushing.dfy` the toothbrush session with its racing watchdog, and
  `Pipeline.dfy` the loop that dispatches every report. `BrushingRuns.dfy` and
  `BridgeRuns.dfy` let reports, clock ticks, timer callbacks (early, late, or already
  superseded) and shutdown interleave in any way. The main results are there:
  `CallbackInvariant`, `TimedSafety`, `AcceptedAreMaxima`, `MotionNeedsAcceptedStart`, and
  `BridgeRunsAreBrushingRuns`, which carries every theorem about one toothbrush over to
  the whole bridge, from a fresh start or a restored one. `BrushingFrames.dfy` gives the
  exact effect of every frame and timer in whole seconds.
- **Measurement cache and restarts.** `Measurements.dfy` is the cache keyed by MAC or
  DID, and `Restarts.dfy` proves that it always agrees with what the live accessory
  shows, so that a restart shows the same readings with motion off. For a device
  configured by DID alone that can fail; there it says exactly when it holds.
  `CacheRuns.dfy` says what any run leaves in the cache, the file and the device list, so
  that a device enrolled on the way shows its last readings after the restart.
- **Discovery and accessory IDs.** `Discovery.dfy` fills an empty device list from what
  is heard, missing no accepted report. `Devices.dfy`, `Enrolment.dfy`,
  `EnrolmentRuns.dfy` and `Config.dfy` follow a list through probing, enrolment, sorting,
  saving and restarts: no AID is shared and none changes hands.
- **On-device installation.** `Installer.dfy` is the script and `Transaction.dfy` proves
  it all-or-nothing; `ExitCodes.dfy` says what each exit status means. Three rules are
  exact: which manifests never defeat the rollback (`ManifestRule.dfy`, on `Doubling.dfy`
  and `DoublingRuns.dfy`), which modes come back (`ModeRule.dfy`), and for which artifact
  names a success means that every line is installed (`NameRule.dfy`). `Adversary.dfy`
  builds the environments that show nothing weaker is enough.
- **MQTT wire layer.** `Mqtt.dfy` is the client's side, `Probe.dfy` the Python probe's
  second implementation, proved against the same specification (MQTT 3.1.1,
  sections 2.2, 2.2.3, 3.3 and 3.8).
- **MIoT properties and MAC text.** `Openmiio.dfy` and `Text.dfy`.

Each piece of code that changes state in place is a class or a loop here too, proved
against a function of its old state or against what it promises; the theorems are then
about that function. Where such a function is the only thing a contract names, a lemma
beside it says in the source's own numbers and fields what it is (`ClassifyExact`,
`MergeExact`, `StartFrameExact`, `OutcomeExact` and others).

## How to read the model

- `time.Duration` is a signed 64-bit nanosecond count that wraps on multiplication, and
  `Time.Sub` saturates (`GoTime.dfy`). Instants are monotonic nanoseconds; wall-clock
  time is a separate parameter. Event timestamps are 32-bit. Where a theorem needs
  gateway times to be bounded, `WireTimes` says so: 0 up to 9,223,372,036 seconds.
- A pending timer callback is in `callbacks`. When its timer fires it joins `started`:
  from then on `Stop` comes too late and it waits for the mutex. Timers may fire early,
  which makes the re-arming branch of `expireWatchdog` reachable.
- Every report in a run carries the unbounded frame number behind its one-byte counter.
  The number is used by hypotheses and conclusions, never by the modelled code. Where
  equal numbers mean equal frames, the gateway's own time `gwts` may still differ.
- A device is *tame* in a run if each of its own reports comes within the reset window of
  its newest frame and with a number within -128..127 of it. Other devices may fall
  silent, jump or reset. Rows that say "tame" need this; the rows about a device's last
  accepted frame do not.
- A run of the bridge may begin in any consistent state, with what discovery delivered
  already in its log; the reports discovery kept are actions of the run.
- The FNV hash and the digest commands are parameters. `Hash` is any function; the
  mask and offset of `stableID` are applied to it.
- An installation is driven by an `Environment` that fixes which commands fail.
  Recording a change and the commands of a rollback are taken to succeed, the start and
  stop scripts not to touch destinations or backups, and artifact names not to be
  `manifest.txt` or `changes.txt`, which the script keeps in the same directory.
- Text is ASCII. Temperatures and humidities are exact reals.

## Where the code does less than it seems to

- docs/PROTOCOL.en.md:80-82 says that a repeated start refreshes an *already active*
  watchdog. The code does not look at `active`, so it also revives an expired session:
  `BridgeRuns.DuplicateEffectIff` says exactly when, `BridgeRuns.RepeatRevivesExpiredSession`
  gives a run.
- `prepareDevices` can give an earlier device without an AID the persisted AID of a later
  one, which then moves (`Enrolment.EarlierDeviceTakesAid`); `Enrolment.AlwaysKeepsAidsIff`
  says for which lists that cannot happen.
- A DID-only update arriving after a MAC entry exists is cached where `Restore` does not
  look (`Measurements.DidOnlyMergeVisibleIff`). For a device configured by DID alone, the
  first report that carries its MAC even removes what was cached for it
  (`Measurements.MacReadingInvisibleByDid`), so a restart may show less than was shown:
  `Restarts.DidRestartSameIff` says exactly when.
- The liveness test accepts event times 292 years away from an unbounded `gwts`:
  `BrushingRuns.UnboundedGatewayTimeLooksLive`. It is right up to a bound on `gwts` iff
  that bound is at most 9,223,372,036 seconds after the event:
  `BrushingRuns.LivenessExactIff`.
- A rollback goes wrong when the install loop comes to a second line of a destination its
  first line created; `ManifestRule.AlwaysRestoresIff` says for which manifests that can
  happen. Where SHA-256 and MD5 never disagree about an artifact, a second line with the
  same MD5 is harmless (`ManifestRule.GenuineNamesRestoreIff`).
- A file mode set on an up-to-date file is not rolled back
  (`InstallerLimits.ModesAreNotRestored`), and nothing else is missed
  (`ModeRule.FailureRestoresExactlyIff`).
- With one artifact name listed for two contents a successful run can install the wrong
  one (`InstallerLimits.RepeatedNameInstallsWrongArtifact`): it can iff the first and the
  last line of some name differ (`NameRule.AlwaysInstallsIff`).

## Model

| member | source | states |
|---|---|---|
| `GoTime.SecondsExactIff` | internal/bridge/toothbrush.go:201-206 | a whole number of seconds survives conversion to a Duration iff it is at most 9,223,372,036 in size |
| `GoTime.WrapIsCongruent` | internal/bridge/toothbrush.go:201-206 | beyond that, the wrapping product is the one 64-bit word congruent to the true one |
| `GoTime.SubCompares` | internal/bridge/toothbrush.go:172-173 | saturating time differences compare with any Duration as the true differences do |
| `Brushing.Toothbrush.constructor` | internal/bridge/toothbrush.go:39-54 | a new accessory is idle, with no timer and no history |
| `Brushing.Toothbrush.Apply` | internal/bridge/toothbrush.go:64-139 | the whole new session state after a report, as a function of the old one, the report and the clocks |
| `Brushing.Toothbrush.ApplyLiveStart` | internal/bridge/toothbrush.go:86-103 | a live start continues a session it falls into or begins one, and re-arms the watchdog |
| `Brushing.Toothbrush.ApplyEnd` | internal/bridge/toothbrush.go:106-138 | a live or forced end closes the session; a historical one only updates the completion record |
| `Brushing.Toothbrush.ArmWatchdogLocked` | internal/bridge/toothbrush.go:147-156 | new generation, old timer stopped unless its callback has started, new one due in 30 s |
| `Brushing.Toothbrush.StopWatchdogLocked` | internal/bridge/toothbrush.go:158-164 | new generation and no timer |
| `Brushing.Toothbrush.ExpireWatchdog` | internal/bridge/toothbrush.go:166-189 | superseded callbacks do nothing, early ones re-arm for the rest, due ones end the session |
| `Brushing.Toothbrush.Close` | internal/bridge/toothbrush.go:141-145 | stops the watchdog and nothing else |
| `BrushingRuns.CallbackInvariant` | internal/bridge/toothbrush.go:147-189 | in every interleaving, pending callbacks carry no future generation, exactly the one held by `timer` carries the current one and is due 30 s after the last activity, and an active session not since closed has one |
| `BrushingRuns.GenerationsWrapAround` | internal/bridge/toothbrush.go:30-30 | the bound of 2^64 generations in that invariant cannot be dropped |
| `BrushingRuns.SupersededCallbackIsInert` | internal/bridge/toothbrush.go:169-171 | a started callback that is not the current one changes nothing of the session, so it never ends a newer one |
| `BrushingRuns.ExpiryNeedsSilence` | internal/bridge/toothbrush.go:166-188 | in every reachable state a callback ends a session only if it is the current one and 30 s have passed since the last live start |
| `BrushingRuns.TimedSafety` | internal/bridge/toothbrush.go:166-189 | if callbacks run within d of falling due, motion is never on later than 30 s + d after the last live start unless Close intervened |
| `BrushingRuns.DurationTestsExact` | internal/bridge/toothbrush.go:80-107 | on bounded times the wrapping Duration comparisons equal the integer ones |
| `BrushingRuns.UnboundedGatewayTimeLooksLive` | internal/bridge/toothbrush.go:80-80 | without the bound the liveness test accepts times 292 years apart |
| `BrushingRuns.LivenessExactIff` | internal/bridge/toothbrush.go:80-80 | for an event of any positive time, the wrapping liveness test is the 60 s test for every gateway time up to a bound iff the bound is at most 9,223,372,036 s after the event |
| `BrushingRuns.SessionTestExactIff` | internal/bridge/toothbrush.go:106-107 | the ten-minute test of a forced stop is right exactly as far |
| `BrushingRuns.SessionAlwaysConsistent` | internal/bridge/toothbrush.go:75-138 | in every reachable state motion equals active, active means a positive start, the last live start lies within 600 s of it, the duration is 0 to 600 s, and the completion time is the maximum of all effective ends |
| `BrushingRuns.MaxEndIsMaximum` | internal/bridge/toothbrush.go:132-133 | the completion record of that invariant is 0 or an effective end, and none is later |
| `BrushingFrames.StartFrameExact` | internal/bridge/toothbrush.go:75-104 | the whole next state after a start frame in any reachable state, in seconds: it is applied iff its time is positive and within 60 s of the gateway time, whatever the wall clock says, or without a gateway time of the wall clock; it keeps the start of a session it falls into, shows the battery, and re-arms the watchdog for 30 s from now |
| `BrushingFrames.EndFrameExact` | internal/bridge/toothbrush.go:75-138 | the same for an end frame: it ends the session iff it is live or the gateway time (without one, the wall clock) falls into the session, which then counts as the end; and the exact duration, completion time and score recorded |
| `BrushingFrames.LiveStartIff` | internal/bridge/toothbrush.go:76-86 | the same two cases decide what the run theorems call a live start |
| `BrushingFrames.BatteryReportExact` | internal/bridge/toothbrush.go:68-73 | a report without a brushing event shows its battery, low from 20 percent down, and nothing else |
| `BrushingFrames.ExpiryExact` | internal/bridge/toothbrush.go:166-189 | the whole next state when the timer's callback runs: 30 s after the last activity the session ends and no end is recorded; before that the timer is re-armed for the rest |
| `BrushingFrames.CloseExact` | internal/bridge/toothbrush.go:141-164 | shutdown takes the timer back and leaves motion, session and readings |
| `Deduplication.Deduplicator.Classify` | internal/openmiio/deduplicator.go:48-77 | the verdict and the new counter table as functions of the old table, the report and the clock |
| `Deduplication.Deduplicator.Accept` | internal/openmiio/deduplicator.go:41-43 | true exactly for reports classified as accepted |
| `Deduplication.CountedIff` | internal/openmiio/deduplicator.go:49-58 | a report takes part iff it has a counter and a MAC or a DID; a MAC text of "did:" alone counts as neither |
| `Deduplication.SameKeyIff` | internal/openmiio/deduplicator.go:52-55 | two reports share a baseline iff their MACs agree up to case or, where neither has one, their DIDs |
| `Deduplication.ClassifyExact` | internal/openmiio/deduplicator.go:60-76 | in the plain difference of instants: any counter is accepted as the new baseline where there is none, there is no reset time, or the baseline is that old; otherwise 1 to 127 ahead is accepted, equal is a duplicate, the rest is stale and changes nothing |
| `Deduplication.BaselineIsLastAccepted` | internal/openmiio/deduplicator.go:62-76 | in every run, resets included, a device's baseline is the counter and instant of its last accepted report |
| `Deduplication.AcceptedIff` | internal/openmiio/deduplicator.go:48-77 | in every run: a report is accepted iff none of its device was before, or the last accepted one is a reset time old, or its counter is 1 to 127 ahead of that one's; refused, it is a duplicate iff the counters are equal |
| `Deduplication.AcceptedAfterSilence` | internal/openmiio/deduplicator.go:62-65 | so the first report after a silence of the reset time is accepted whatever its counter, and is the baseline from then on |
| `Deduplication.ClassifyRefinesStep` | internal/openmiio/deduplicator.go:60-76 | inside the reset window and within -128..127 of the newest frame, the one-byte comparison answers as unbounded counters would |
| `Deduplication.BaselineIsNewest` | internal/openmiio/deduplicator.go:62-76 | over a run, a tame device's stored counter is that of its greatest delivered frame number, whatever other devices send and however they interleave |
| `Deduplication.AcceptedAreMaxima` | internal/openmiio/deduplicator.go:48-77 | over a run, the accepted reports of a tame device are exactly its left-to-right maxima, and the stale ones exactly those below an earlier one |
| `Deduplication.NewestIsGreatest` | internal/openmiio/deduplicator.go:62-76 | the newest delivery used by these statements is one of the device's deliveries and has its greatest frame number |
| `Deduplication.DevicesAreIndependent` | internal/openmiio/deduplicator.go:52-62 | in any run, a device's stored counter depends on its own reports alone |
| `Deduplication.ReacceptedIff` | internal/openmiio/deduplicator.go:60-76 | an accepted counter value is accepted again iff the counter has advanced since by more than 128 modulo 256, while no gap reaches the reset time |
| `Pipeline.DeviceAccessory.Apply` | internal/bridge/device.go:15-31 | dispatch on the product kind |
| `Pipeline.Bridge.MatchAccessory` | cmd/mgl03-homekit-bridge/main.go:390-401 | the first accessory with the update's MAC or DID |
| `CacheRuns.MatchedIff` | cmd/mgl03-homekit-bridge/main.go:390-401 | there is one iff some accessory's device has the update's MAC, up to case, or its DID |
| `Pipeline.Bridge.PersistMeasurements` | cmd/mgl03-homekit-bridge/main.go:247-254 | the cache is merged, and written only when it changed |
| `Pipeline.Bridge.Dispatch` | cmd/mgl03-homekit-bridge/main.go:197-230 | accepted reports reach the cache and the accessory, duplicate starts the accessory alone, all others nothing |
| `Pipeline.Bridge.ProcessUpdate` | cmd/mgl03-homekit-bridge/main.go:197-230 | one turn of the loop: accessories, counters, cache and file, and the device list and the MACs noted as unknown |
| `CacheRuns.ReportReaches` | cmd/mgl03-homekit-bridge/main.go:197-230 | in every run: a report changes exactly the first accessory with its MAC or DID, and only if it is accepted or a repeated start |
| `CacheRuns.CacheIsMerged` | cmd/mgl03-homekit-bridge/main.go:186-207 | in every run the cache is the one it began with and exactly the accepted reports merged in order, whether or not an accessory matches; of the reports discovery kept, those that match one |
| `CacheRuns.FileIsCacheAt` | cmd/mgl03-homekit-bridge/main.go:247-254 | the file is the cache as it was at some moment, since when no change of it could be saved |
| `CacheRuns.FileFollows` | cmd/mgl03-homekit-bridge/main.go:247-254 | so the file is the cache while saves succeed |
| `Pipeline.Bridge.ProcessInitial` | cmd/mgl03-homekit-bridge/main.go:186-192 | every report kept by discovery is applied and cached once, in some order |
| `Pipeline.Bridge.ProcessUpdates` | cmd/mgl03-homekit-bridge/main.go:193-231 | the same over a queue of reports, in order |
| `CacheRuns.QueueIsRun` | cmd/mgl03-homekit-bridge/main.go:193-231 | what that loop leaves, the device list included, is where a run leads, so that the theorems about runs hold of it |
| `CacheRuns.InitialIsRun` | cmd/mgl03-homekit-bridge/main.go:186-192 | and so is what processing the kept reports leaves |
| `Pipeline.EnrolledOnce` | cmd/mgl03-homekit-bridge/main.go:209-227 | over any unmatched reports, auto mode appends exactly one record for every supported MAC not noted before and the other modes none; the records there keep their places and AIDs, and AIDs stay distinct |
| `CacheRuns.EnrolledIff` | cmd/mgl03-homekit-bridge/main.go:197-227 | in every run of the loop, auto mode enrols exactly the MACs of accepted reports of product 5860 or 6032 that match no accessory and were not noted before, each once, with the name, MAC, DID, product and model of the first such report |
| `CacheRuns.EnrolledShowsLast` | cmd/mgl03-homekit-bridge/main.go:207-245 | the accessory that a restart makes of a device enrolled in a run shows the last value of every field reported in it, the report that enrolled the device included |
| `Pipeline.Bridge.RestoreCachedMeasurements` | cmd/mgl03-homekit-bridge/main.go:234-245 | every accessory with cached values is given them |
| `BridgeRuns.MotionRisesOnlyOnNewest` | cmd/mgl03-homekit-bridge/main.go:193-230 | for a tame device: motion becomes true only on processing a live start that is its newest accepted frame, or a repeat of it with any gateway time |
| `Restarts.KeptMotionIsNewest` | cmd/mgl03-homekit-bridge/main.go:186-192 | the same for a report discovery kept: for a device tame so far, motion becomes true only on a live start that is the newest frame discovery accepted from it |
| `BridgeRuns.NoReactivation` | cmd/mgl03-homekit-bridge/main.go:197-230 | for a tame device: once its newest accepted frame is no start and motion is off, no interleaving of repeats, older frames, other devices, timers and time turns it on |
| `BridgeRuns.MotionRisesOnlyOnLastAccepted` | cmd/mgl03-homekit-bridge/main.go:193-230 | over a device's whole life, silences and resets of its counter included: motion becomes true only on a live start that is its last accepted frame, provided what is taken for a repeat of that frame is one |
| `BridgeRuns.MotionNeedsAcceptedStart` | cmd/mgl03-homekit-bridge/main.go:197-230 | under that proviso, in every run: once the last accepted frame is no start and motion is off, motion stays off until a start of the device is accepted |
| `Restarts.KeptFrameIsLast` | cmd/mgl03-homekit-bridge/main.go:186-192 | what discovery keeps of such a device meets the hypothesis of those two: it is the last frame discovery accepted |
| `BridgeRuns.DuplicateEffectIff` | cmd/mgl03-homekit-bridge/main.go:201-204 | after a duplicate, motion is on iff it was on or the frame is a live start: `active` is not consulted |
| `BridgeRuns.RepeatRevivesExpiredSession` | cmd/mgl03-homekit-bridge/main.go:201-204 | a run in which a repeated start revives a session the watchdog had ended |
| `BridgeRuns.BridgeRunsAreBrushingRuns` | cmd/mgl03-homekit-bridge/main.go:173-232 | from any state a toothbrush reaches in a run of its own, every run of the bridge continues that run, step for step |
| `BridgeRuns.BridgeTimedSafety` | cmd/mgl03-homekit-bridge/main.go:173-232 | so the watchdog bound holds for every toothbrush in every run of the bridge |
| `Sensors.Sensor.Apply` | internal/bridge/sensor.go:40-50 | present values replace shown ones, absent ones leave them |
| `Sensors.ShowsLast` | internal/bridge/sensor.go:40-50 | after any reports each reading shown is that of the last report that brought one; a battery is low from 20 percent down |
| `Measurements.State.Merge` | internal/measurements/state.go:66-106 | the new map as a function of the old one, and true exactly when it differs |
| `Measurements.MergeExact` | internal/measurements/state.go:66-106 | one merge spelled out: each field the report brings replaces what was held under the device's key, or else under its DID, whose entry moves; a changed entry is stamped with the gateway time or, without one, the wall clock; no other entry changes |
| `Measurements.IdentityIff` | internal/measurements/state.go:168-176 | two readings share a key iff their MACs normalise alike or, where neither has one, their trimmed DIDs agree |
| `Measurements.State.Restore` | internal/measurements/state.go:110-131 | the cached values of a device by MAC, else by DID, and failure exactly when there are none |
| `Measurements.State.Load` | internal/measurements/state.go:42-62 | every saved key is read back normalised, with a reading saved under some key of that normal form |
| `Measurements.LoadedKey` | internal/measurements/state.go:178-183 | any spelling of a MAC, and "did:" with any spacing of a DID, is read back as that device's key |
| `Measurements.RestoreReturnsLast` | internal/measurements/state.go:66-131 | from any cache that does not hold the device under both its keys, with DID-only updates before MAC-bearing ones, Restore gives for every field the value of the last update that carried it, or what was cached before, through the promotion; a device may have no DID |
| `Measurements.KeyIsFixedIff` | internal/measurements/state.go:168-183 | Load reads a key back unchanged iff its MAC text does not look like a DID key with a space to trim |
| `Measurements.OrdinaryKeysAreFixed` | internal/measurements/state.go:168-183 | keys from twelve-digit MACs and from bare DIDs are fixed points |
| `Measurements.CacheSurvivesSaveLoad` | internal/measurements/state.go:57-60 | Save then Load gives back the same map after any merges of such keys |
| `Measurements.DidOnlyMergeVisibleIff` | internal/measurements/state.go:70-84 | a DID-only update is visible to Restore iff nothing is cached under the device's MAC; otherwise Restore is unchanged |
| `Measurements.MacReadingInvisibleByDid` | internal/measurements/state.go:70-118 | for every cache: a MAC-bearing report of a device configured by DID alone changes nothing that Restore gives it if the MAC is cached, and removes all of it if not |
| `Restarts.AlwaysAgree` | cmd/mgl03-homekit-bridge/main.go:197-254 | all along an orderly run, the accessory shows exactly what the cache and the file hold for it, provided a repeated counter brings no other readings |
| `Restarts.MacOwns` | cmd/mgl03-homekit-bridge/main.go:390-401 | a device whose reports all carry its MAC and a counter is one these results are about |
| `Restarts.DidOwns` | cmd/mgl03-homekit-bridge/main.go:390-401 | so is one known by DID alone whose reports carry no MAC |
| `Restarts.DiscoveryKeepsInOrder` | cmd/mgl03-homekit-bridge/main.go:282-288 | of such a device discovery keeps the last report the deduplicator accepted |
| `Restarts.KeptAgrees` | cmd/mgl03-homekit-bridge/main.go:186-192 | applying what discovery kept, in any order, brings accessory, cache and file into agreement |
| `Restarts.RestartShowsTheSame` | cmd/mgl03-homekit-bridge/main.go:234-245 | from any such state a restart shows the same readings with motion off, and agreement holds again for the next life |
| `Restarts.RestartEquivalence` | cmd/mgl03-homekit-bridge/main.go:186-254 | the whole story: from an empty cache through what discovery kept, any orderly run and a restart, the readings shown are the same |
| `Restarts.RestartedBegan` | cmd/mgl03-homekit-bridge/main.go:138-142 | a restored toothbrush is where a run of its own leads, whatever was cached |
| `Restarts.FreshTimedSafety` | cmd/mgl03-homekit-bridge/main.go:173-232 | the watchdog bound in the first life of the process |
| `Restarts.RestartedTimedSafety` | cmd/mgl03-homekit-bridge/main.go:138-232 | and in every later one, whatever was cached |
| `Restarts.RestartSameIff` | cmd/mgl03-homekit-bridge/main.go:234-245 | any accessory shows the same after a restart iff it shows what Restore gives for it |
| `Restarts.DidReportKeepsIff` | internal/measurements/state.go:70-131 | for a device configured by DID alone, exactly which reports keep that true |
| `Restarts.DidAccessoryAgreesIff` | cmd/mgl03-homekit-bridge/main.go:197-230 | over any run: the accessory shows at every moment what Restore would give from the cache iff every report was of that kind |
| `Restarts.DidRestartSameIff` | cmd/mgl03-homekit-bridge/main.go:197-254 | while saves succeed, so the same decides whether a restart from the file, at any moment of the run, would show what is shown |
| `Restarts.TameRepeatsAreCopies` | internal/openmiio/deduplicator.go:68-71 | for a tame device, equal frame numbers meaning equal frames, gateway times aside, makes every repeat bring the readings of the last accepted frame |
| `Devices.FillProduct` | cmd/mgl03-homekit-bridge/main.go:332-346 | product ID and model are filled where they can be, and `changed` says whether anything was |
| `Devices.ProductIs` | internal/openmiio/products.go:10-49 | which product number a model stands for and the other way round, and that nothing else of a record changes |
| `Devices.FindCandidate` | cmd/mgl03-homekit-bridge/main.go:351-357 | probing terminates while fewer than 2^31-2 AIDs are used and stops at the first free one along the cycle |
| `Devices.SomeFree` | cmd/mgl03-homekit-bridge/main.go:352-357 | the pigeonhole behind that: one AID of the cycle is free |
| `Devices.PrepareDevices` | cmd/mgl03-homekit-bridge/main.go:327-363 | the prepared list, and `changed` true exactly when it differs |
| `Devices.PreparedAid` | internal/bridge/sensor.go:62-84 | a record keeps an AID of at least 2 that is still free; else it gets the first free one along the cycle from a hash of its MAC alone or, without one, of "did:" and its DID |
| `Enrolment.PrepareSettles` | cmd/mgl03-homekit-bridge/main.go:347-361 | AIDs come out at least 2 and pairwise distinct, product fields filled |
| `Enrolment.PrepareFixesIff` | cmd/mgl03-homekit-bridge/main.go:327-363 | a list is left unchanged iff it is already so: a second pass changes nothing |
| `Enrolment.AidAlwaysKeptIff` | cmd/mgl03-homekit-bridge/main.go:327-363 | a persisted AID survives for every hash iff no earlier device has it, and either it is greater than 0x80000001 or all earlier devices have distinct AIDs of their own |
| `Enrolment.AlwaysKeepsAidsIff` | cmd/mgl03-homekit-bridge/main.go:327-363 | a list keeps all its persisted AIDs for every hash iff they are distinct and those up to 0x80000001 come before every device without one |
| `Enrolment.EarlierDeviceTakesAid` | cmd/mgl03-homekit-bridge/main.go:351-359 | for every hash, an earlier device without an AID can take a later one's |
| `Enrolment.FindDevice` | cmd/mgl03-homekit-bridge/main.go:371-381 | the first matching record, or -1 exactly when none matches |
| `Enrolment.MergeDevices` | cmd/mgl03-homekit-bridge/main.go:403-430 | the configured list followed by every saved record that adds an identity, by two seen-sets |
| `Enrolment.MergeSnoc` | cmd/mgl03-homekit-bridge/main.go:415-428 | a saved record is appended iff it has a MAC or a DID and shares neither, MACs up to case, with a record kept before it |
| `Enrolment.MergeIsIdentified` | cmd/mgl03-homekit-bridge/main.go:415-428 | merging never makes two records of one device |
| `Enrolment.MergeKeepsAll` | cmd/mgl03-homekit-bridge/main.go:415-428 | and drops nothing when all identities are distinct |
| `Enrolment.AppendDeviceWithAID` | cmd/mgl03-homekit-bridge/main.go:365-369 | enrolment is preparing the list with the device at its end |
| `Enrolment.AppendKeepsOthers` | cmd/mgl03-homekit-bridge/main.go:365-369 | enrolling into a prepared list changes no record of it |
| `Enrolment.EnrolNew` | cmd/mgl03-homekit-bridge/main.go:312-325 | a device no record matches gets one at the end, with the MAC, DID, product and model of its report and the numbered name of the product; the list stays prepared with one record per device |
| `Enrolment.DecimalValue` | cmd/mgl03-homekit-bridge/main.go:319-319 | the number in a name, read as decimal digits, is the place in the list |
| `Enrolment.SupportedIff` | cmd/mgl03-homekit-bridge/main.go:308-310 | discovery listens to reports of products 5860 and 6032 with a MAC, and tells their devices apart by MAC up to case |
| `Discovery.DiscoverDevices` | cmd/mgl03-homekit-bridge/main.go:256-306 | every supported report is heard until cancellation, the end of the window, or the first device in `first` mode; each accepted one has its device in the list and each record is taken from an accepted report (name, MAC, DID, product and model), the last of every identity is kept, the frame table is the one they lead to, and the list is prepared with one record per device |
| `Discovery.UntilIsFirst` | cmd/mgl03-homekit-bridge/main.go:277-305 | the event that ends discovery is the first that may: a cancellation, the end of the window after a report was accepted, or in `first` mode an accepted report |
| `EnrolmentRuns.AcceptedIsConfigured` | internal/config/config.go:161-187 | an accepted configuration is normalised and every entry has a key, as the next rows ask |
| `EnrolmentRuns.StartUpBegins` | cmd/mgl03-homekit-bridge/main.go:87-104 | after a start from any file, the list is settled and holds the prepared configured devices, and what a restart would make of the file is settled and part of it |
| `EnrolmentRuns.AidsNeverChange` | cmd/mgl03-homekit-bridge/main.go:87-112 | from there, with a fixed configuration and through enrolments, saved or not, sorts and restarts, AIDs stay distinct and at least 2, the configured devices keep theirs, and every record is, AID included, one of the start or one enrolled since |
| `EnrolmentRuns.StartUpKeepsAll` | cmd/mgl03-homekit-bridge/main.go:91-104 | with distinct configured identities, every device of the list after a start would come back from the file |
| `EnrolmentRuns.NoDeviceIsLost` | cmd/mgl03-homekit-bridge/main.go:365-430 | with distinct identities, a device that would come back from the file stays in the list, and on file, with its AID |
| `Config.ValidateDevices` | internal/config/config.go:161-197 | a device list is accepted iff, normalised, its entries have keys, valid MACs and no AID 1, and no two share a key or an AID |
| `Config.AcceptedIff` | internal/config/config.go:161-197 | so it is accepted iff every entry has a MAC of twelve hex digits or no MAC and a DID, none has AID 1, and no two share a MAC, a DID without MACs, or an AID |
| `Config.ValidMACIff` | internal/config/config.go:174-179 | a MAC is accepted iff its text has twelve hex digits, however spelled |
| `Config.AcceptedAidsAreKept` | internal/config/config.go:188-196 | an accepted list whose devices have AIDs and their product fields filled goes through prepareDevices unchanged |
| `Openmiio.NormalizeMAC` | internal/openmiio/parser.go:177-193 | the byte loop computes what the regular-expression version does, on every string |
| `Text.NormalizeMACIdempotent` | internal/config/config.go:201-211 | normalising twice is normalising once |
| `Text.SameMACIff` | internal/config/config.go:201-211 | two twelve-digit spellings normalise alike iff their digits agree up to case |
| `Text.TrimSpaceExact` | internal/config/config.go:163-165 | trimming removes white space at the two ends, all of it, and nothing else |
| `Text.LowerIs` | internal/config/config.go:203-208 | the 26 letters are lowered and everything else stays |
| `Openmiio.ParseMIoTProperties` | internal/openmiio/parser.go:106-171 | one update per DID in first-occurrence order: its temperature is the last (3, 1001) of the DID and its humidity the last (3, 1002), rounded to tenths, its battery the last (2, 1003) rounded to whole percents, each absent iff there is none; the message fails, naming the first culprit, iff one of those has no number or one outside -100..150, 0..100 or 0..100 once rounded |
| `Openmiio.RoundIsNearest` | internal/openmiio/parser.go:144-156 | rounding gives the nearest integer, halves away from zero |
| `Openmiio.SeenHasMeasurement` | internal/openmiio/parser.go:164-169 | the final filter drops nothing |
| `Openmiio.FirstSeenMembers` | internal/openmiio/parser.go:132-137 | the DIDs listed are those with a recognised property, each once |
| `Openmiio.FirstSeenPrefix` | internal/openmiio/parser.go:132-137 | a longer message only appends, so the order is that of first occurrence |
| `Openmiio.LastReadingIsLast` | internal/openmiio/parser.go:142-161 | each field is the reading of the last property of that DID and kind |
| `Installer.Script.VerifyArtifacts` | scripts/install-on-device.sh:122-146 | the exit status and the staged artifacts of the verification loop |
| `Installer.Script.InstallFiles` | scripts/install-on-device.sh:180-213 | files, staging, changes and failure flag after the install loop, for every choice of failing commands |
| `Installer.Script.RollbackChanges` | scripts/install-on-device.sh:53-67 | the recorded changes are undone in order |
| `Installer.Script.DiscardBackups` | scripts/install-on-device.sh:69-80 | the backups of the recorded changes are removed |
| `Installer.Script.Execute` | scripts/install-on-device.sh:111-273 | the exit status and the files of the whole script |
| `ExitCodes.OutcomeExact` | scripts/install-on-device.sh:215-273 | status 0 means that no check and no line failed, the runtime started and, in homekit mode, the bridge started and is still alive after 3 s; and exactly when the status is 30, 40 or 41 |
| `ExitCodes.CheckExact` | scripts/install-on-device.sh:111-178 | exactly which check each earlier status stands for |
| `ExitCodes.LineStatusIs` | scripts/install-on-device.sh:122-145 | a line exits with 13 to 18 by the first of its six tests that fails: extra field, destination, mode, name, download, digest (SHA-256 where the command exists, else MD5) |
| `ExitCodes.FirstFailingLine` | scripts/install-on-device.sh:122-146 | the verification loop exits with the status of the first failing line |
| `ExitCodes.StartupLine` | scripts/install-on-device.sh:148-155 | the startup file's MD5 is that of the first line with its destination |
| `ExitCodes.EntryFailsIff` | scripts/install-on-device.sh:182-213 | when an install line fails: a chmod, an existing backup, a backup or move that fails, or an artifact already taken |
| `ExitCodes.LoopFailsIff` | scripts/install-on-device.sh:180-213 | the install loop fails iff it comes to such a line |
| `Transaction.FailureRestoresEverything` | scripts/install-on-device.sh:215-266 | with distinct destinations, every failing exit leaves every path with its earlier content, or absent as before |
| `ModeRule.FailureRestoresExactlyIff` | scripts/install-on-device.sh:186-266 | such an exit leaves a path exactly as it was, mode included, iff no line that was reached found it up to date with another mode and set its own |
| `Transaction.RollbackRestoresIff` | scripts/install-on-device.sh:53-67 | for any manifest and any failures, the rollback restores everything iff no destination was recorded twice |
| `Transaction.EarlyFailureTouchesNothing` | scripts/install-on-device.sh:111-178 | the exits before the install loop are exactly those of the failed checks, every line's included, and they change no file at all |
| `Transaction.VerifiedIff` | scripts/install-on-device.sh:122-146 | the verification loop succeeds iff every line and its artifact pass |
| `Transaction.AllStaged` | scripts/install-on-device.sh:123-146 | the install loop starts with an artifact staged for every name: the one downloaded and verified for its last line |
| `Transaction.SuccessInstallsExactly` | scripts/install-on-device.sh:182-273 | with distinct destinations, and the first and last line of each artifact name agreeing, a success installs every line with its digest and mode, and every other path, backups and unnamed destinations included, is as before |
| `Transaction.SuccessTouchesOnlyItsLines` | scripts/install-on-device.sh:182-273 | the last part for any manifest at all: a success leaves a path that no line names exactly as it was |
| `ManifestRule.AlwaysRestoresIff` | scripts/install-on-device.sh:53-67 | for every manifest the script would install: all failures in all environments restore everything iff no line can create a destination and a later line of it be reached, given which files and artifacts the lines between need; and the same rule for the environments in which an artifact that passes its SHA-256 has the listed MD5 too |
| `Doubling.NoDoublesRestores` | scripts/install-on-device.sh:180-266 | one half of that, for any manifest at all |
| `ManifestRule.DistinctNamesRestoreIff` | scripts/install-on-device.sh:53-67 | with distinct artifact names, as the installer's own are: iff the destinations are distinct |
| `ManifestRule.GenuineNamesRestoreIff` | scripts/install-on-device.sh:53-67 | and where artifacts that pass have both listed digests: iff the lines of every destination ask for one MD5 |
| `NameRule.AlwaysInstallsIff` | scripts/install-on-device.sh:139-213 | for every manifest with distinct destinations that the script would install: all successes in all environments install every line iff the first and last line of each artifact name ask for the same content |
| `InstallerLimits.RepeatedNameInstallsWrongArtifact` | scripts/install-on-device.sh:139-145 | with one artifact name listed twice for different contents a successful run can install the wrong one |
| `InstallerLimits.ModesAreNotRestored` | scripts/install-on-device.sh:186-194 | a mode set on an up-to-date file survives a later failure |
| `Mqtt.EncodeRemainingLength` | internal/mqttmini/client.go:224-237 | the loop produces the base-128 encoding |
| `Mqtt.DecodeRemainingLength` | internal/mqttmini/client.go:239-253 | the loop decodes at most four bytes to a value of at most 268,435,455 and never overflows 32 bits |
| `Mqtt.DecodeEncode` | internal/mqttmini/client.go:224-253 | decoding inverts encoding, with any bytes following, iff the length is at most 268,435,455 |
| `Mqtt.EncodingsAreMinimal` | internal/mqttmini/client.go:224-253 | no accepted encoding of a length is shorter, and none takes more than four bytes |
| `Mqtt.EncodedIsLength` | internal/mqttmini/client.go:224-237 | a length is written seven bits a byte, the least significant first, with the top bit on all bytes but the last |
| `Mqtt.LengthIsRead` | internal/mqttmini/client.go:239-253 | every such length of at most four bytes is read with its value, minimal or not, and a longer one is malformed |
| `Mqtt.WritePacket` | internal/mqttmini/client.go:194-203 | header, length and payload are appended, or nothing for an oversized payload |
| `Mqtt.ReadPacket` | internal/mqttmini/client.go:205-222 | the packet and the unread rest, or the failure, of the stream |
| `Mqtt.PacketRoundTrip` | internal/mqttmini/client.go:194-222 | a packet is read back with what follows untouched iff its payload is within the limit |
| `Mqtt.EncodedBegins` | internal/mqttmini/client.go:198-200 | a written packet is its header, such a length of its payload, and the payload |
| `Mqtt.ReadIff` | internal/mqttmini/client.go:205-222 | a packet is read off a stream iff the stream begins with it in that layout and its payload is at most 1,048,576 bytes |
| `Mqtt.ReadAll` | internal/mqttmini/client.go:100-118 | repeated reading returns the packets of the stream up to the first unreadable one |
| `Mqtt.StreamRoundTrip` | internal/mqttmini/client.go:194-222 | any sequence of packets comes back exactly, with nothing left over |
| `Mqtt.ParsePublish` | internal/mqttmini/client.go:255-277 | accepts exactly the bodies of acceptable PUBLISH messages with the header's QoS, and returns the message: the topic after its big-endian length, the packet ID with QoS 1, and the rest |
| `Mqtt.QosBits` | internal/mqttmini/client.go:265-265 | the QoS is in bits 1 and 2 of the header, whatever the others are |
| `Mqtt.PublishBodyInjective` | internal/mqttmini/client.go:255-277 | a body determines its message, so that answer is the only one |
| `Mqtt.SubscribePayload` | internal/mqttmini/client.go:179-192 | packet ID, then each topic with its length and QoS 0 |
| `Mqtt.SubscriptionRoundTrip` | internal/mqttmini/client.go:179-192 | a broker reads back exactly the requested topics iff each fits its 16-bit length |
| `Mqtt.NormalizedTopics` | internal/mqttmini/client.go:162-177 | topics trimmed, without blanks and repeats |
| `Mqtt.NormalizedTopicsOnce` | internal/mqttmini/client.go:162-177 | every non-blank topic is there exactly once |
| `Mqtt.NormalizedPrefix` | internal/mqttmini/client.go:162-177 | in the order of their first occurrence |
| `Probe.ReadExact` | scripts/mqtt_ble_probe.py:35-42 | exactly the requested bytes, whatever pieces the socket delivers |
| `Probe.EncodeVarint` | scripts/mqtt_ble_probe.py:18-27 | the same length bytes as the client |
| `Probe.ReadVarint` | scripts/mqtt_ble_probe.py:47-56 | the same byte strings accepted, with the same value and remainder |
| `Probe.ReadPacket` | scripts/mqtt_ble_probe.py:45-59 | a packet of up to 262,144 bytes is read as the client reads it, a larger one refused |

## Left out

- NameRule.AlwaysInstallsIff: for distinct destinations; two lines of one destination with different contents cannot both stay installed.
- ModeRule.FailureRestoresExactlyIff: for distinct destinations, where `Transaction.RollbackRestoresIff` shows contents come back; modes of a destination installed twice are not followed.
- Restarts.AlwaysAgree: asks that every save of the cache succeeds and that no two devices share an identity; after a failed save the file is simply older than the display.
- Discovery.DiscoverDevices: the order in which the select receives events is a parameter, and saving the list found is outside it.
- Mqtt.ReadAll: an untimed stream; a read timeout inside a packet, after which the client loses alignment, is not modelled.
- Openmiio.ParseMIoTProperties: floating-point rounding and a value too large for int are not modelled; rounding is half away from zero on exact reals.
- The rest of `serve`: connection, PUBACK, PINGREQ and reconnection, which are network plumbing.
- Decoding of BLE event bytes to readings, the JSON around it, and queue-full dropping (a dropped report is one not delivered).
- The HomeKit server, its accessory construction and initial characteristic values; a value never set is `None`.
- JSON encoding, temporary files and renames of the registry and the cache: a save stores the value or fails as a whole.
- Configuration fields other than devices, the names given to configured devices, and PIN handling.
- The argument checks and manifest download of the installer, which are one exit status, and its rule that names such as `..` cannot be downloaded.
- A failing save of the registry at a start ends the program, so no run follows it; a changed configuration between starts is not modelled.
- The sort of `run` is any permutation: the order of accessories matters to no property here.
- A nil measurement state, which the program never has.
