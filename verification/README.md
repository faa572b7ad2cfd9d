# A verified model of the cockpit's state machines

Dafny models of the parts of the cockpit software whose correctness is a property of whole runs
rather than of one function: the crash-safe over-the-air upgrade, the fail-closed chassis command
chain, the odometry clock, the cancellation of voice playback, the streaming decoder of language
model responses, the process supervisor, the navigation bridge and the byte work of the RTSP server.
`dafny verify dfyconfig.toml` checks everything.

One module stands for one source component, in a file of nearly the same name. An object whose methods
update its fields is a class; each method is proved to do to the object's value (`View()`, or `disk` for
the install root) what a specification function does, and the lemmas about that function say what it is for. What the
outside world may answer (system calls, the network, other processes, threads) is a parameter on which
nothing is assumed: a fault script, an oracle, a script of answers, an interleaving. Inductions are written out; every lemma
carries `{:induction false}`.

## How the parts are modelled

- **Upgrade** (`SemanticVersion`, `UpgradeTransaction`, `UpgradeRuns`). A disk is the `current` link, the release
  directories with their completeness, the record, the version floor and leftover temporaries. Every system call takes
  the next fault of a script: it happens, it fails, or the machine stops before it. `Settle(d)` is what
  recovery would make of disk `d`; `Consistent(d)` is the write-ahead invariant. The calls made are kept as a trace, so that
  their order and the syncs before a rename are part of the contracts. `deploy/install.sh` appears as an installer that
  fills `releases/<version>` and then moves `current` to it, and that may stop anywhere.
- **Chassis** (`Crc16`, `CrcCheck`, `FrameBurst`, `ChassisCanCodec`, `ChassisHeartbeat`, `ChassisClient`, `ChassisSafetyStateSource`,
  `ChassisSafetyAdapter`, `ChassisSafetyLoop`, `ChassisSafetyHistory`). Frames, requests, outputs and stops are events, each
  with a time of its own and in any order: frames are stamped when the kernel received them, which may be before
  the request that came first. An event carries a frame's decoded content, so the history is independent of the CRC,
  and the codec's own lemmas connect content and bytes.
- **Odometry clock** (`OdometryTimeMapper`). Runs contain refused calls too.
- **Playback** (`PlaybackCancellation`). A step is one critical section of one of any number of threads; the Cancel call runs
  between two steps. Spurious wake-ups are allowed. The log of calls and answers is part of the state.
- **Responses** (`Text`, `JsonString`, `JsonField`, `HttpBodyDecoder`, `ResponseStream`). A byte is a `char` below 256. A cut is
  any list of reads whose concatenation is the response.
- **Supervisor** (`RestartLimiter`, `ProcessManager`). Stops and spawns answer from oracles indexed by the call, and
  a log holds the stops and starts made and whether each succeeded.
- **Bridge** (`BridgeService`). The provider answers anything, except that it does not itself report "timed out".
- **RTSP** (`AnnexB`, `FragmentAssembler`).

## What turned out not to hold as one might wish

- Installing over a pending record is safe only under the condition of `UpgradeRuns.InstallOverPendingRecord`;
  `UpgradeRuns.InstallForgetsRollback` gives disks on which the rollback target is lost, and
  `UpgradeRuns.RollbackTargetLost` one with versions 1.0.0, 1.1.0 and 1.2.0. The safe-ota tool recovers first.
- A timeout of the chassis link does not always invalidate the fault frames seen so far. They count exactly until the
  next detected reboot or noticed timeout (`ChassisSafetyHistories.FaultSeenExactly`), and a timeout is noticed exactly when
  the tick of a request or output is the first to hand it on; an accepted frame of any kind that comes first hides
  it (`ChassisSafetyHistories.NoticedIff`). `ChassisSafetyHistories.HiddenTimeout` is a run of four steps and a request
  in which a motion frame does. The 300 ms freshness limits hold regardless.
- A fault frame whose stamp is older than that of an earlier one is accepted but not recorded, so the fault
  frame accepted last need not be the one that counts: `ChassisSafetyHistories.LastIsRecordedIff` says exactly when it is, and
  `ChassisSafetyHistories.StampsOutOfOrder` is a step that reads a faulty one and a step behind it that enables a command.
- Bursts of up to 16 bits are all detected within the covered bytes of a frame, but not across the border to its checksum,
  which is stored low byte first. Exactly twelve such errors escape (`FrameBursts.ESCAPES`, `FrameBursts.BurstEscapesIff`);
  the shortest are 13 bits long (`FrameBursts.LastBitEscapes`), and up to 12 bits everything is detected.
- A chunk size with blanks behind it is refused, although section 7.1.1 of RFC 9112 allows blanks before an extension and
  asks for them to be ignored: `HttpBodyDecoders.BlankIsRefused` has one, and `HttpBodyDecoders.DecodesEncoding` says that a
  chunked encoding decodes if and only if there are none.
- The answer to a response depends on how the network cuts it exactly when the response is in error behind
  the end of its event stream (`ResponseStreams.CutMattersExactly`), that is, when its body is in error behind lines that end
  the stream (`ResponseStreams.CutMattersIff`); `ResponseStreams.CutDependentExample` is one such response. A response that
  RFC 9112 allows can be one, through a blank behind a chunk size: `ResponseStreams.BlankIsCutDependent`. No response whose
  body decodes is (`ResponseStreams.DecodableResponse`).
- Zero bytes that pad a unit of a byte stream (`trailing_zero_8bits` of section B.1 of ITU-T H.264) are delivered as part of
  the unit, except for one that the next start code takes. The units come out unchanged if and only if nothing else is left
  (`AnnexBs.SplitsStream`, `AnnexBs.UnitsUnchangedIff`); `AnnexBs.PaddingIsDelivered` is a stream of two units.
- A refused odometry call can leave the wrap counter advanced; this happens only when the sample time no
  longer fits 64 bits, and then nothing is accepted until a reset (`OdometryTimeMappers.RefusalMarks`,
  `OdometryTimeMappers.MarkedMeansStuck`, and two such calls in `OdometryTimeMappers.RefusalMarksExample`). The mapper's
  final test can never refuse a call.
- Fragments of a frame that arrive again after the frame was complete begin it anew, and a second full set gives a
  second packet; `FragmentAssemblers.OnePacketIff` says exactly when there is one.
- The heartbeat monitor counts a restart of the peer exactly when the wire uptime falls by 1 to 2^31
  (`ChassisHeartbeats.CountIsRestarts`).

## Model

| member | source | states |
|---|---|---|
| `SemanticVersions.ParseComponent` | cockpit/upgrader/runtime/upgrade_transaction.cc:88-104 | a component is accepted exactly when it is a non-empty run of digits whose value fits 64 bits: the overflow guard rejects no representable number |
| `SemanticVersions.ParseSemanticVersion` | cockpit/upgrader/runtime/upgrade_transaction.cc:74-113 | the loop computes the parse of the dot-separated pieces, for every string |
| `SemanticVersions.ParseAcceptsExactly` | cockpit/upgrader/runtime/upgrade_transaction.cc:74-113 | a string parses if and only if it is three dot-separated non-empty decimal numbers below 2^64, and then to those numbers |
| `SemanticVersions.ParseOfPrint` | cockpit/upgrader/runtime/upgrade_transaction.cc:74-113 | parsing a printed version gives it back |
| `SemanticVersions.ParsedIsValidVersion` | cockpit/upgrader/runtime/upgrade_transaction.cc:61-68 | whatever parses also passes the path-name check |
| `SemanticVersions.ValidVersionExactly` | cockpit/upgrader/runtime/upgrade_transaction.cc:61-68 | which characters the name of a release may have |
| `SemanticVersions.CompareIsTotalOrder` | cockpit/upgrader/runtime/upgrade_transaction.cc:115-123 | comparison is a strict total order on versions |
| `SemanticVersions.CompareByPrecedence` | cockpit/upgrader/runtime/upgrade_transaction.cc:115-123 | major decides first, then minor, then patch |
| `UpgradeTransactions.ConsistentRecordLoads` | cockpit/upgrader/runtime/upgrade_transaction.cc:428-465 | a record of a consistent disk passes every check of loading |
| `UpgradeTransactions.LoadsExactly` | cockpit/upgrader/runtime/upgrade_transaction.cc:428-465 | a record is acted upon if and only if its version is a name of legal characters and its previous release is absent or another one directly below `releases` |
| `UpgradeTransactions.FloorAdvancesTransitive` | cockpit/upgrader/runtime/upgrade_transaction.cc:142-203 | "the floor never falls" composes over operations |
| `UpgradeTransactions.InstallRoot.WriteYaml` | cockpit/upgrader/runtime/upgrade_transaction.cc:361-388 | at every fault the target is either the old content or the whole new content, and what is renamed has been synced before: the exact system calls of a write that is done |
| `UpgradeTransactions.InstallRoot.RollbackUpgrade` | cockpit/upgrader/runtime/upgrade_transaction.cc:611-656 | at every fault the disk is one of four: nothing done, link moved, release half removed, finished; the release goes only after the link has left it; which records and links are refused, and the exact system calls of a rollback that is done |
| `UpgradeTransactions.InstallRoot.PersistVersionFloor` | cockpit/upgrader/runtime/upgrade_transaction.cc:142-169 | the floor becomes the version or stays, and never falls |
| `UpgradeTransactions.InstallRoot.RecoverInterruptedUpgrade` | cockpit/upgrader/runtime/upgrade_transaction.cc:658-722 | from every consistent disk and under every fault script recovery keeps the settled result and the invariant; when it finishes no record is left and the disk is the settled result, after exactly the system calls that this needs |
| `UpgradeTransactions.InstallRoot.ConfirmUpgrade` | cockpit/upgrader/runtime/upgrade_transaction.cc:724-761 | a confirmation happens or does not: what recovery makes of the disk is what it was, or the candidate with its floor |
| `UpgradeTransactions.InstallRoot.RunInstaller` | deploy/install.sh:66-113 | the installer publishes the link only after the release is complete |
| `UpgradeTransactions.InstallRoot.InstallUpgrade` | cockpit/upgrader/runtime/upgrade_transaction.cc:488-609 | an install that ends early anywhere counts as never begun; one that finishes has the candidate active and the old release on record; without faults exactly the checks decide (in numbers: `UpgradeRuns.InstallableIffAbove`) |
| `UpgradeTransactions.PendingInstallSettles` | cockpit/upgrader/runtime/upgrade_transaction.cc:535-603 | every disk an install passes through settles to the state before it |
| `UpgradeTransactions.RollbackKeepsSettlement` | cockpit/upgrader/runtime/upgrade_transaction.cc:626-656 | every disk a rollback passes through settles to the same result |
| `UpgradeRuns.RunAdvances` | cockpit/upgrader/runtime/upgrade_transaction.cc:488-761 | over any history of operations and crashes every disk is consistent, the floor never falls, and the settled state only moves to strictly newer versions, keeping every release and adding only complete ones |
| `UpgradeRuns.SettledIsLastConfirmation` | cockpit/upgrader/runtime/upgrade_transaction.cc:488-761 | over any history the settled state is as it was, or it is the candidate, the releases and the floor of the last confirmation that took effect |
| `UpgradeRuns.FinishedTakesEffect` | cockpit/upgrader/runtime/upgrade_transaction.cc:724-761 | a confirmation that finishes takes effect |
| `UpgradeRuns.CurrentAlwaysComplete` | cockpit/upgrader/runtime/upgrade_transaction.cc:626-646 | at no crash point does `current` name a missing or incomplete release |
| `UpgradeRuns.ConfirmedVersionsIncrease` | cockpit/upgrader/runtime/upgrade_transaction.cc:171-203 | confirmed versions are strictly increasing |
| `UpgradeRuns.RecoveryThroughCrashes` | cockpit/upgrader/runtime/upgrade_transaction.cc:658-722 | recovery may crash any number of times; the first that finishes reaches the settled result and leaves no record |
| `UpgradeRuns.SettledResult` | cockpit/upgrader/runtime/upgrade_transaction.cc:679-711 | a confirmed record settles to the candidate and its floor, any other to the recorded previous release without the candidate |
| `UpgradeRuns.InstallOverPendingRecord` | cockpit/upgrader/runtime/upgrade_transaction.cc:535-566 | an install over a pending record keeps what recovery would have made of the disk if and only if recovery would not have changed the visible state; that condition is spelled out |
| `UpgradeRuns.InstallForgetsRollback` | cockpit/upgrader/runtime/upgrade_transaction.cc:535-566 | for any three ascending versions, disks on which such an install loses the rollback target |
| `UpgradeRuns.RollbackTargetLost` | cockpit/upgrader/runtime/upgrade_transaction.cc:535-566 | the same for 1.0.0, 1.1.0 and 1.2.0 |
| `UpgradeRuns.ExecuteSafeOta` | tools/safe-ota/action/safe_ota.cc:177-346 | success leaves the new version running with its floor, an unhealthy exit leaves the old state, and whatever happens the disk settles to the old state or to the new version with its floor; without faults it succeeds if and only if all checks pass, and is unhealthy if and only if all but the health check do |
| `UpgradeRuns.InstallableIffAbove` | cockpit/upgrader/runtime/upgrade_transaction.cc:171-203 | in numbers: with the current release a.b.c, or none, and the floor d.e.f, or none, a candidate x.y.z that is not among the releases gets past the checks if and only if it is above each that is there, by major, then minor, then patch |
| `UpgradeRuns.UpgradeOnce` | tools/safe-ota/action/safe_ota.cc:177-346 | without faults an upgrade of a good package succeeds if and only if its version is above what is there, and then is what is there |
| `UpgradeRuns.UpgradeTwice` | tools/safe-ota/action/safe_ota.cc:177-346 | without faults two upgrades with ascending versions both succeed, from any consistent disk |
| `Crc16s.Crc16` | cockpit/driver/vehicle/chassis_can_codec.cc:162-185 | the loops compute the register of the identifier and payload bytes |
| `CrcChecks.CheckValue` | cockpit/driver/vehicle/chassis_can_codec.cc:162-185 | the check value of CRC-16/CCITT-FALSE: the characters 1 to 9, the first two as the identifier, give 0x29B1 |
| `Crc16s.BytesAreBits` | cockpit/driver/vehicle/chassis_can_codec.cc:162-185 | the byte-wise computation is the bit-serial shift register |
| `Crc16s.StepInjective` | cockpit/driver/vehicle/chassis_can_codec.cc:167-182 | one shift loses no information |
| `Crc16s.BurstDetected` | cockpit/driver/vehicle/chassis_can_codec.cc:162-185 | two covered strings that differ only within 16 consecutive bits have different checksums |
| `Crc16s.PayloadBurstDetected` | cockpit/driver/vehicle/chassis_can_codec.cc:162-185 | the same for payloads of any length |
| `Crc16s.IdentifierDetected` | cockpit/driver/vehicle/chassis_can_codec.cc:162-185 | one payload under two identifiers has different checksums |
| `Crc16s.ByteChangeDetected` | cockpit/driver/vehicle/chassis_can_codec.cc:162-185 | any change of one byte changes the checksum |
| `Crc16s.FeedBitsLinear` | cockpit/driver/vehicle/chassis_can_codec.cc:167-182 | the register is linear over exclusive or, in its start value and the message together |
| `Crc16s.UndetectedIff` | cockpit/driver/vehicle/chassis_can_codec.cc:162-185 | if payload and stored checksum are both corrupted, the checksum still fits if and only if its change is what the change of the payload makes of an empty register: identifier and content do not matter |
| `FrameBursts.RegisterDivides` | cockpit/driver/vehicle/chassis_can_codec.cc:162-185 | the register holds the remainder of the message, shifted by 16, divided by x^16 + x^12 + x^5 + 1 |
| `FrameBursts.BurstEscapesIff` | cockpit/driver/vehicle/chassis_can_codec.cc:97-185 | a burst of at most 16 bits, anywhere in the covered bytes and the checksum behind them as transmitted, is undetected if and only if it is one of twelve listed errors, which all reach across the border |
| `FrameBursts.ShortBurstDetected` | cockpit/driver/vehicle/chassis_can_codec.cc:97-185 | a burst of at most 12 bits there is always detected |
| `FrameBursts.LastBitEscapes` | cockpit/driver/vehicle/chassis_can_codec.cc:97-185 | in every frame: turning over the last covered bit and adding 0x1021 to the stored checksum, a burst of 13 bits, is undetected |
| `FrameBursts.HeartbeatShortBurstRejected` | cockpit/driver/vehicle/chassis_can_codec.cc:139-148 | a heartbeat frame with a burst of up to 12 bits in its covered bytes, its checksum or both is rejected |
| `FrameBursts.FaultShortBurstRejected` | cockpit/driver/vehicle/chassis_can_codec.cc:150-160 | the same for fault frames |
| `ChassisCanCodecs.EncodeHeartbeat` | cockpit/driver/vehicle/chassis_can_codec.cc:97-148 | every heartbeat with a valid node state encodes, and decodes to itself |
| `ChassisCanCodecs.HeartbeatBurstRejected` | cockpit/driver/vehicle/chassis_can_codec.cc:139-148 | a heartbeat frame whose covered bytes suffer a burst of up to 16 bits, the checksum staying as it was, is rejected |
| `ChassisCanCodecs.FaultBurstRejected` | cockpit/driver/vehicle/chassis_can_codec.cc:150-160 | the same for fault frames |
| `ChassisCanCodecs.IdentifierIsCovered` | cockpit/driver/vehicle/chassis_can_codec.cc:139-160 | a frame whose checksum was made for another identifier decodes neither as a heartbeat nor as a fault status |
| `ChassisCanCodecs.EncodeVelocity` | cockpit/driver/vehicle/chassis_can_codec.cc:76-95 | encodes exactly the commands within the limits, and the frame carries them with their checksum |
| `ChassisCanCodecs.VelocityLimits` | cockpit/driver/vehicle/chassis_can_codec.cc:76-83 | the limits of a command, in numbers |
| `ChassisCanCodecs.HeartbeatOnWire` | cockpit/driver/vehicle/chassis_can_codec.cc:139-148 | a frame decodes to a heartbeat if and only if its identifier, length, version and checksum are right and every field stands at its place, little-endian and in range |
| `ChassisCanCodecs.FaultOnWire` | cockpit/driver/vehicle/chassis_can_codec.cc:150-160 | the same for a fault status, with the active and the latched faults each at their place |
| `ChassisClients.MotionOnWire` | cockpit/driver/vehicle/chassis_can_codec.cc:113-125 | which frames are a motion status |
| `ChassisClients.OdometryOnWire` | cockpit/driver/vehicle/chassis_can_codec.cc:127-137 | which frames are an odometry report |
| `ChassisCanCodecs.VelocityOnWire` | cockpit/driver/vehicle/chassis_can_codec.cc:76-95 | where a velocity frame carries what, negative velocities modulo 2^16 |
| `ChassisHeartbeats.ChassisHeartbeatMonitor.Process` | cockpit/driver/vehicle/chassis_can_codec.cc:187-209 | accepts exactly the decodable frames that are ahead, and records them |
| `ChassisHeartbeats.RebootIffUptimeFell` | cockpit/driver/vehicle/chassis_can_codec.cc:197-203 | a reboot is counted if and only if the wire uptime fell by 1 to 2^31 |
| `ChassisHeartbeats.ProgressIsNoReboot` | cockpit/driver/vehicle/chassis_can_codec.cc:197-203 | true progress below 2^31 ms is never taken for a reboot, also across the wrap |
| `ChassisHeartbeats.AcceptedSequence` | cockpit/driver/vehicle/chassis_can_codec.cc:190-196 | while not timed out a heartbeat is ahead if and only if the true sequence advanced by 1 to 127 modulo 256 |
| `ChassisHeartbeats.CountIsFalls` | cockpit/driver/vehicle/chassis_can_codec.cc:187-216 | over any history the reboot count is the number of falls of the accepted uptimes |
| `ChassisHeartbeats.CountIsRestarts` | cockpit/driver/vehicle/chassis_can_codec.cc:187-216 | over any history the reboot count never exceeds the number of true restarts, and equals it if and only if every restart showed as a fall of 1 to 2^31 |
| `ChassisClients.ChassisClient.ProcessFrame` | cockpit/driver/vehicle/chassis_client.cc:18-81 | timeout handling, per-identifier decoding, baseline handling and status of every frame |
| `ChassisClients.ChassisClient.Update` | cockpit/driver/vehicle/chassis_client.cc:83-94 | reports exactly when the heartbeat status changed since last reported |
| `ChassisClients.AcceptedExactly` | cockpit/driver/vehicle/chassis_client.cc:18-81 | which frames are accepted, in numbers: valid, 1 to 127 ahead of the last, or the first of their kind after a timeout |
| `ChassisClients.InvalidExactly` | cockpit/driver/vehicle/chassis_client.cc:18-81 | which frames are invalid rather than ignored |
| `ChassisClients.StateAfterFrame` | cockpit/driver/vehicle/chassis_client.cc:18-81 | what the host sees after an accepted frame, field by field |
| `ChassisClients.StateAfterTick` | cockpit/driver/vehicle/chassis_client.cc:83-94 | what the host sees after a tick: the last accepted heartbeat, its age, whether it is lost, and that faults stay |
| `ChassisClients.FaultsOnlyAdvance` | cockpit/driver/vehicle/chassis_client.cc:59-73 | while the baseline stands, faults change only with an accepted frame 1 to 127 ahead |
| `ChassisClients.BaselineGivenUp` | cockpit/driver/vehicle/chassis_client.cc:125-148 | the baseline is given up exactly by a timeout or a reboot of the peer |
| `ChassisSafetyAdapters.ChassisSafetyAdapter.Submit` | cockpit/shield/chassis/chassis_safety_adapter.cc:90-117 | which requests are kept, and what a refused one clears |
| `ChassisSafetyAdapters.ChassisSafetyAdapter.Evaluate` | cockpit/shield/chassis/chassis_safety_adapter.cc:125-176 | the stop reason, or the clamped and slew-limited command (in the numbers of the request: `EnabledMoves`, `CommandReachesRequest`) |
| `ChassisSafetyAdapters.EnabledMoves` | cockpit/shield/chassis/chassis_safety_adapter.cc:144-176 | each axis of an enabled command lies towards what the request asks for on that axis, or the limit of the same sign, by no more than the acceleration allows |
| `ChassisSafetyAdapters.CommandReachesRequest` | cockpit/shield/chassis/chassis_safety_adapter.cc:144-176 | with a fixed request, after as many enabled outputs as the distance has units, each axis of the command is what the request asks for, or the limit of the same sign |
| `ChassisSafetyAdapters.TakenExactly` | cockpit/shield/chassis/chassis_safety_adapter.cc:90-117 | a request is taken if and only if nothing speaks against it, and then it is the one held |
| `ChassisSafetyAdapters.PolicyLimits` | cockpit/shield/chassis/chassis_safety_adapter.cc:33-38 | which policies can be worked with |
| `ChassisSafetyAdapters.ReasonIsFirst` | cockpit/shield/chassis/chassis_safety_adapter.cc:125-143 | which reason is given when several apply |
| `ChassisSafetyAdapters.InvalidUntilTaken` | cockpit/shield/chassis/chassis_safety_adapter.cc:90-143 | a request that cannot be represented or is rejected stops the movement with that reason, until one is taken or the adapter is reset |
| `ChassisSafetyAdapters.StartsFromZero` | cockpit/shield/chassis/chassis_safety_adapter.cc:117-176 | after a disabled output or a reset a new request is needed, and the movement starts from 0 |
| `ChassisSafetyAdapters.CommandsAreNumbered` | cockpit/shield/chassis/chassis_safety_adapter.cc:125-176 | over any calls commands are numbered one after the other, modulo 256 |
| `ChassisSafetyAdapters.ApproachMeaning` | cockpit/shield/chassis/chassis_safety_adapter.cc:14-18 | one step moves towards the target by at most the reach and never past it |
| `ChassisSafetyAdapters.EnvelopeHolds` | cockpit/shield/chassis/chassis_safety_adapter.cc:33-38 | after any calls the remembered velocities lie within a valid policy |
| `ChassisSafetyAdapters.OutputsAreEncodable` | cockpit/shield/chassis/chassis_safety_adapter.cc:125-176 | after any calls every output is within the limits, zero when disabled, and accepted by the codec |
| `ChassisSafetyAdapters.SlewBound` | cockpit/shield/chassis/chassis_safety_adapter.cc:157-168 | over n enabled outputs from t0 > 0 to t1 a velocity changes by at most n + acceleration (t1 - t0) / 1000 |
| `ChassisSafetyAdapters.Converges` | cockpit/shield/chassis/chassis_safety_adapter.cc:151-168 | with a fixed request every output comes at least 1 nearer to the clamped target, without overshoot |
| `ChassisSafetyAdapters.ReachesTarget` | cockpit/shield/chassis/chassis_safety_adapter.cc:151-168 | after as many outputs as the distance has units the target is reached |
| `ChassisSafetyStateSources.ChassisCanSafetyStateSource.ProcessFrame` | cockpit/driver/vehicle/chassis_can_safety_state_source.cc:9-27 | what a frame does to the fault state, the reboot count and the tracker |
| `ChassisSafetyStateSources.ChassisCanSafetyStateSource.Evaluate` | cockpit/driver/vehicle/chassis_can_safety_state_source.cc:29-39 | the assessment: freshness, fault state, and a fault while no fault frame counts |
| `ChassisSafetyLoops.LogicalMsMeans` | cockpit/driver/platform/socketcan/socket_can.cc:66-80 | a mapped stamp is not negative, not in the future, and never makes a frame younger than it is |
| `ChassisSafetyLoops.LogicalMsExactly` | cockpit/driver/platform/socketcan/socket_can.cc:66-80 | which kernel stamps are mapped |
| `ChassisSafetyLoops.FrameEventsExactly` | cockpit/driver/vehicle/runtime/vcan_chassis_safety_loop.cc:50-74 | which frames are skipped: the own commands, and heartbeats and fault frames 300 ms old |
| `ChassisSafetyLoops.BudgetIsSixtyFour` | cockpit/driver/vehicle/runtime/vcan_chassis_safety_loop.cc:50-74 | a step reads at most 64 frames, the first ones |
| `ChassisSafetyLoops.ReadEventsFresh` | cockpit/driver/vehicle/runtime/vcan_chassis_safety_loop.cc:50-74 | the frames of a step are stamped between 0 and the step's time, and no heartbeat or fault frame that has grown 300 ms old gets through |
| `ChassisSafetyLoops.VcanChassisSafetyLoop.ReadFrames` | cockpit/driver/vehicle/runtime/vcan_chassis_safety_loop.cc:50-74 | the receive loop: budget, mapping of stamps, conversion errors, skipped frames |
| `ChassisSafetyLoops.VcanChassisSafetyLoop.Step` | cockpit/driver/vehicle/runtime/vcan_chassis_safety_loop.cc:42-79 | the frames that have arrived, then one assessment, command and frame, unless a read goes wrong; the codec never refuses the command |
| `ChassisSafetyLoops.VcanChassisSafetyLoop.Stop` | cockpit/driver/vehicle/runtime/vcan_chassis_safety_loop.cc:81-93 | a negative time is refused and changes nothing; otherwise a stop disables, whatever came before, and sends a zero command |
| `ChassisSafetyHistories.LastIsLatest` | cockpit/driver/vehicle/runtime/vcan_chassis_safety_loop.cc:35-93 | the "last event" of the safety properties is the last one that shows the fact |
| `ChassisSafetyHistories.LoopRemembers` | cockpit/driver/vehicle/chassis_can_safety_state_source.cc:9-39 | over any history, with stamps in any order, the source and the adapter remember exactly the newest accepted heartbeat and fault frame, the held request and the last output |
| `ChassisSafetyHistories.FaultSeenExactly` | cockpit/driver/vehicle/chassis_can_safety_state_source.cc:14-17 | fault frames count if and only if one was accepted after the last detected reboot and the last noticed timeout |
| `ChassisSafetyHistories.LinkRemembered` | cockpit/driver/vehicle/chassis_client.cc:18-95 | over any history the client knows the last accepted heartbeat, whether it was found too old, and whether that has been handed on |
| `ChassisSafetyHistories.NoticedIff` | cockpit/driver/vehicle/chassis_client.cc:18-95 | a tick notices a timeout if and only if some event since the last accepted heartbeat, or the tick, found it 300 ms old and neither a tick nor an accepted frame has come in between |
| `ChassisSafetyHistories.HiddenTimeout` | cockpit/driver/vehicle/chassis_client.cc:18-81 | four steps of the loop that read one frame each, a request and a fifth step: an accepted motion frame hides a timeout, and the output is enabled on the fault frame from before it |
| `ChassisSafetyHistories.EnabledExactly` | cockpit/shield/chassis/chassis_safety_adapter.cc:67-143 | over any history, with stamps in any order: an output is enabled if and only if the controls allow it, the newest accepted heartbeat and fault frame are at most 300 ms old, that fault frame is clean, fault frames count, a request accepted since the last refusal, stop or disabled output is within its timeout, and time has not run backwards since the last output |
| `ChassisSafetyHistories.StepEnabledExactly` | cockpit/driver/vehicle/runtime/vcan_chassis_safety_loop.cc:42-79 | the same for a step of the loop, whose frames join the history before its output |
| `ChassisSafetyHistories.FailClosed` | cockpit/shield/chassis/chassis_safety_adapter.cc:67-143 | when frames are stamped in the order in which they are read, whatever happens in between, an enabled output implies all of that of the heartbeat, fault frame and request accepted last |
| `ChassisSafetyHistories.LastIsRecordedIff` | cockpit/shield/chassis/chassis_safety_adapter.cc:48-65 | the heartbeat or fault frame accepted last is the one that counts if and only if no accepted one carries a later stamp |
| `ChassisSafetyHistories.StampsOutOfOrder` | cockpit/shield/chassis/chassis_safety_adapter.cc:57-65 | one step that reads a faulty frame with an older stamp than the clean one before it, a request, and a step that enables a command |
| `OdometryTimeMappers.ChassisOdometryTimeMapper.Map` | cockpit/driver/vehicle/chassis_odometry_time_mapper.cc:25-74 | the sample is device time plus the smallest delay so far, or the call is refused for order or overflow; nothing overflows 64 bits and the final test never refuses |
| `OdometryTimeMappers.RefusedExactly` | cockpit/driver/vehicle/chassis_odometry_time_mapper.cc:25-74 | in numbers: which calls are refused, and when the wrap counter goes up |
| `OdometryTimeMappers.ResetMarksFirst` | cockpit/driver/vehicle/chassis_odometry_time_mapper.cc:25-74 | over any run the first answered call after a reset is marked as one, and no other |
| `OdometryTimeMappers.DeviceNanoseconds` | cockpit/driver/vehicle/chassis_odometry_time_mapper.cc:12-22 | gives the extended clock exactly when it fits |
| `OdometryTimeMappers.ClosedForm` | cockpit/driver/vehicle/chassis_odometry_time_mapper.cc:25-74 | over any run, refused calls included, sample k is its device time plus the minimum over i up to k of reception minus device time |
| `OdometryTimeMappers.RunSamplesNonDecreasing` | cockpit/driver/vehicle/chassis_odometry_time_mapper.cc:57-63 | over any run, refused calls included, the samples of the answered calls never decrease and are never later than their reception |
| `OdometryTimeMappers.UnwrapExact` | cockpit/driver/vehicle/chassis_odometry_time_mapper.cc:35-42 | a true gap below 2^32 ms is refused if and only if the wire value fell and the gap is 2^31 or more; otherwise the clock advances by the true gap |
| `OdometryTimeMappers.TrueClosedForm` | cockpit/driver/vehicle/chassis_odometry_time_mapper.cc:25-74 | with gaps below 2^31 ms and times that fit every reading is accepted and the closed form holds on the true clock |
| `OdometryTimeMappers.RefusalMarks` | cockpit/driver/vehicle/chassis_odometry_time_mapper.cc:35-47 | exactly which refused calls change the state |
| `OdometryTimeMappers.RefusalMarksExample` | cockpit/driver/vehicle/chassis_odometry_time_mapper.cc:35-47 | two calls from the start of which the second is refused, changes the state and is followed by refusals only |
| `OdometryTimeMappers.MarkedMeansStuck` | cockpit/driver/vehicle/chassis_odometry_time_mapper.cc:35-56 | after such a refusal nothing is accepted until a reset |
| `PlaybackCancellations.AudioPlaybackClient.BeginRound` | cockpit/voice/audio/audio_playback_client.cc:556-581 | one round of the loop under the mutex: return, wait or call (on runs, through the submitter's thread: `FirstCallerSends`, `LaterCallerIsAnswered`) |
| `PlaybackCancellations.AudioPlaybackClient.TakeAnswer` | cockpit/voice/audio/audio_playback_client.cc:582-603 | what an answer does, and whom it wakes (on runs: `AnswerWhilePlaying`) |
| `PlaybackCancellations.AudioPlaybackClient.ClearActiveRequest` | cockpit/voice/audio/audio_playback_client.cc:540-550 | clears only its own request, and then wakes everybody |
| `PlaybackCancellations.NextInv` | cockpit/voice/audio/audio_playback_client.cc:540-603 | every step of every thread keeps the protocol invariant |
| `PlaybackCancellations.EveryConversationIsSingleFlight` | cockpit/voice/audio/audio_playback_client.cc:552-603 | in any interleaving of any number of threads each playback gets at most two Cancel calls, never two at once, none after an accepted one |
| `PlaybackCancellations.TrueMeansAccepted` | cockpit/voice/audio/audio_playback_client.cc:562-594 | a caller returns true only if a Cancel call for its playback was accepted |
| `PlaybackCancellations.FalseMeansStaleOrRefused` | cockpit/voice/audio/audio_playback_client.cc:558-599 | in any interleaving: whoever has returned false was told so at the step that made it return, when its playback was no longer active or both calls had been refused |
| `PlaybackCancellations.FalseWhilePlaying` | cockpit/voice/audio/audio_playback_client.cc:527-603 | in any interleaving: a caller that names no request, or the one some thread is playing, and its playback, is told false only when the playback has had exactly two Cancel calls and both were refused |
| `PlaybackCancellations.FirstCallerSends` | cockpit/voice/audio/audio_playback_client.cc:527-581 | the first such caller sends a Cancel call |
| `PlaybackCancellations.LaterCallerIsAnswered` | cockpit/voice/audio/audio_playback_client.cc:556-581 | a later one, or one that wakes up, waits if and only if a call is open, returns true if one was accepted, and calls again if the only one was refused |
| `PlaybackCancellations.AnswerWhilePlaying` | cockpit/voice/audio/audio_playback_client.cc:582-603 | while the playback plays an accepted call is the caller's success, a first refusal makes it call again, a second is its failure |
| `PlaybackCancellations.SubmitterFrees` | cockpit/voice/audio/audio_playback_client.cc:540-550 | a submitter that is through leaves no shared state behind and has woken everybody |
| `PlaybackCancellations.OverIsOver` | cockpit/voice/audio/audio_playback_client.cc:556-572 | a caller whose playback no thread is playing returns false at once |
| `PlaybackCancellations.WaitersHaveAnOwner` | cockpit/voice/audio/audio_playback_client.cc:565-572 | a waiter that has not been notified waits for a call that another thread has open |
| `PlaybackCancellations.OwnersAnswerWakes` | cockpit/voice/audio/audio_playback_client.cc:582-601 | in any interleaving the answer to that call notifies it, or is followed by the one retry |
| `JsonStrings.DecodeJsonString` | cockpit/agent/llm/llama_server_local_llm_client.cc:60-150 | the loop computes the decoding, for every byte string |
| `JsonStrings.AppendUtf8IsUtf8` | cockpit/agent/llm/llama_server_local_llm_client.cc:79-96 | the bit operations give UTF-8 as section 3 of RFC 3629 lays it out |
| `JsonStrings.DecodesToUtf8` | cockpit/agent/llm/llama_server_local_llm_client.cc:60-150 | any sequence of scalar values, each written raw, as a short escape, as one escaped unit or as a surrogate pair, decodes to its UTF-8 form |
| `JsonStrings.UnknownEscape` | cockpit/agent/llm/llama_server_local_llm_client.cc:60-150 | an escape that JSON does not have stands for its character |
| `JsonStrings.TrailingBackslash` | cockpit/agent/llm/llama_server_local_llm_client.cc:60-150 | a backslash at the end is dropped |
| `JsonStrings.CutUnicodeEscape` | cockpit/agent/llm/llama_server_local_llm_client.cc:60-150 | a Unicode escape without four characters behind it loses its first two |
| `JsonStrings.LoneSurrogate` | cockpit/agent/llm/llama_server_local_llm_client.cc:79-150 | a surrogate without its partner comes out in three bytes, which is not UTF-8 |
| `JsonFields.FindJsonFieldValue` | cockpit/agent/llm/llama_server_local_llm_client.cc:152-184 | the loops find the first literal with the field's name and a colon |
| `JsonFields.ExtractStringField` | cockpit/agent/llm/llama_server_local_llm_client.cc:186-225 | the decoded value, or why there is none (by the text: `ExtractsFound`) |
| `JsonFields.ExtractsFound` | cockpit/agent/llm/llama_server_local_llm_client.cc:152-225 | behind any segments that are not the field: a member that is `null` is no value and no error, a string gives its UTF-8, a string without an end or any other value is an error; and segments without the field give none |
| `JsonFields.ExtractsMember` | cockpit/agent/llm/llama_server_local_llm_client.cc:152-225 | behind any text and literals that are not the field's name, a member gives its decoded value |
| `JsonFields.ExtractsUtf8` | cockpit/agent/llm/llama_server_local_llm_client.cc:60-225 | a member whose value is written in any mix of forms gives its UTF-8 |
| `HttpBodyDecoders.HttpBodyDecoder.Feed` | cockpit/agent/llm/llama_server_local_llm_client.cc:279-321 | one read is decoded as far as it goes, or fails with the first error |
| `HttpBodyDecoders.FeedSplit` | cockpit/agent/llm/llama_server_local_llm_client.cc:279-321 | two reads decode to what one read of both does |
| `HttpBodyDecoders.CutsDoNotMatter` | cockpit/agent/llm/llama_server_local_llm_client.cc:279-321 | any cut of any bytes gives the same output and state, or the same error |
| `HttpBodyDecoders.SizeAcceptedIff` | cockpit/agent/llm/llama_server_local_llm_client.cc:286-308 | a size line as section 7.1 of RFC 9112 has it, blanks before the extensions included, is accepted if and only if it has no blanks, and then with its value |
| `HttpBodyDecoders.DecodesEncoding` | cockpit/agent/llm/llama_server_local_llm_client.cc:279-321 | a chunked encoding (section 7.1 of RFC 9112, with extensions, blanks before them, and a trailer) decodes if and only if no size has blanks behind it; it then gives the body, and otherwise an error behind the chunks before the first such size |
| `HttpBodyDecoders.DecodesCoding` | cockpit/agent/llm/llama_server_local_llm_client.cc:279-321 | a coded body decodes to what it codes; one that is not chunked is copied |
| `HttpBodyDecoders.BadTerminatorFails` | cockpit/agent/llm/llama_server_local_llm_client.cc:309-321 | a chunk that is not ended by return and newline is an error |
| `HttpBodyDecoders.BadSizeFails` | cockpit/agent/llm/llama_server_local_llm_client.cc:286-308 | a size line without a number is an error |
| `HttpBodyDecoders.PlainSizeExactly` | cockpit/agent/llm/llama_server_local_llm_client.cc:286-308 | digits alone are a size if they fit 64 bits, and nothing may stand behind them |
| `HttpBodyDecoders.OddSizes` | cockpit/agent/llm/llama_server_local_llm_client.cc:286-308 | `std::stoull` also takes spaces, signs and `0x` in front of a size, and negates modulo 2^64 |
| `HttpBodyDecoders.HugeSizeFails` | cockpit/agent/llm/llama_server_local_llm_client.cc:309-321 | the two largest sizes wrap around when 2 is added, and the comparison that follows fails |
| `HttpBodyDecoders.BlankIsRefused` | cockpit/agent/llm/llama_server_local_llm_client.cc:286-308 | a chunk with a blank before its extension, byte for byte, that is refused |
| `HttpBodyDecoders.GoodPart` | cockpit/agent/llm/llama_server_local_llm_client.cc:279-321 | some first part of any body is free of errors and gives all the output of the whole |
| `ResponseStreams.ResponseReader.ConsumeSseLines` | cockpit/agent/llm/llama_server_local_llm_client.cc:344-414 | all complete lines up to the end mark, with the rest left pending |
| `ResponseStreams.DataLineMeans` | cockpit/agent/llm/llama_server_local_llm_client.cc:344-414 | a data line is its event or the end mark, with blanks in front and a return behind it or not |
| `ResponseStreams.EventsMean` | cockpit/agent/llm/llama_server_local_llm_client.cc:344-414 | events given by their text, whose content, reasoning and finish reason are each a string, `null` or absent: reading them is never an error, and adds exactly those texts and flags to any state |
| `ResponseStreams.ResponseReader.Receive` | cockpit/agent/llm/llama_server_local_llm_client.cc:563-597 | the receive loop behind one successful read |
| `ResponseStreams.ReceivedSplit` | cockpit/agent/llm/llama_server_local_llm_client.cc:563-597 | two reads continue as one read of both, across headers, chunks and lines |
| `ResponseStreams.AnswerDoesNotDependOnCut` | cockpit/agent/llm/llama_server_local_llm_client.cc:563-647 | if the whole response parses without error, every cut gives the same answer, text and finished, done and reasoning flags |
| `ResponseStreams.CutMattersExactly` | cockpit/agent/llm/llama_server_local_llm_client.cc:563-647 | cuts agree if and only if not both: the whole is in error, and a first part already ends the stream |
| `ResponseStreams.CutMattersIff` | cockpit/agent/llm/llama_server_local_llm_client.cc:563-647 | for complete headers and any body: cuts agree if and only if not all three: the body is in error, the status is good, and the lines decoded before the error end the stream |
| `ResponseStreams.BadTailIsCutDependent` | cockpit/agent/llm/llama_server_local_llm_client.cc:563-597 | a family of responses that are cut-dependent |
| `ResponseStreams.CutDependentExample` | cockpit/agent/llm/llama_server_local_llm_client.cc:563-597 | one member of it, byte for byte, for all scans that find status 200 and chunks in its head |
| `ResponseStreams.BlankIsCutDependent` | cockpit/agent/llm/llama_server_local_llm_client.cc:563-597 | a response that RFC 9112 allows, byte for byte, that is cut-dependent through a blank behind its last size |
| `ResponseStreams.DecodableResponse` | cockpit/agent/llm/llama_server_local_llm_client.cc:563-647 | cuts agree on every response whose body decodes, chunked or not, whatever its status and whatever its lines hold |
| `ResponseStreams.ChunkedResponse` | cockpit/agent/llm/llama_server_local_llm_client.cc:563-647 | cuts agree on a chunked response, bad lines included, if and only if no size has blanks behind it or the lines before the first that has do not end the stream of a good response; without blanks one read of it streams its body |
| `ResponseStreams.TextIsContents` | cockpit/agent/llm/llama_server_local_llm_client.cc:344-414 | the text of an event stream is the contents of its events, one behind the other |
| `ResponseStreams.ChatAnswer` | cockpit/agent/llm/llama_server_local_llm_client.cc:563-626 | end to end: events given by their text, as in `EventsMean`, coded in chunks or not, cut anywhere and ended by the mark or a finish reason, are answered with their contents; without any content the answer says so and whether there was reasoning; text and all flags are what the events say |
| `ResponseStreams.BadEventAnswer` | cockpit/agent/llm/llama_server_local_llm_client.cc:563-626 | an event that is an error, behind any good ones, refuses the whole response |
| `ResponseStreams.UnstreamedAnswer` | cockpit/agent/llm/llama_server_local_llm_client.cc:605-647 | a good response without events is taken as one JSON text, whose content is the answer |
| `ResponseStreams.ErrorAnswer` | cockpit/agent/llm/llama_server_local_llm_client.cc:598-626 | with any status but success the answer is an error with the decoded body |
| `ResponseStreams.HeadlessAnswer` | cockpit/agent/llm/llama_server_local_llm_client.cc:563-626 | bytes in which the headers do not end are no response |
| `RestartLimiters.RefusedIffFull` | cockpit/navigator/process/process_manager.cc:434-451 | a restart is refused if and only if the closed window that ends now holds the limit of granted restarts |
| `RestartLimiters.WindowNeverOverfull` | cockpit/navigator/process/process_manager.cc:434-451 | no closed window of the configured length holds more granted restarts than the limit |
| `ProcessManagers.ProcessManager.StopModule` | cockpit/navigator/process/process_manager.cc:202-269 | for every script of answers: the record afterwards and whether the stop succeeded; no other record changes |
| `ProcessManagers.GoneExactly` | cockpit/navigator/process/process_manager.cc:202-269 | a process counts as gone if and only if it was told to end and a poll within the deadline says so, or it was killed after all polls and the final wait says so |
| `ProcessManagers.StopMeans` | cockpit/navigator/process/process_manager.cc:202-269 | what a stop does to a record, and when it succeeds |
| `ProcessManagers.ProcessManager.StartModule` | cockpit/navigator/process/process_manager.cc:177-191 | for every answer of the spawn: the record afterwards and whether the start succeeded; no other record changes |
| `ProcessManagers.StartMeans` | cockpit/navigator/process/process_manager.cc:177-191 | what a start does to a record, and when it succeeds |
| `ProcessManagers.ProcessManager.SwitchMode` | cockpit/navigator/process/process_manager.cc:111-166 | the stops and starts made are the first steps of the switch's plan up to the first that fails, then the way back; it is `Switched` if and only if the whole plan succeeds, so always when every stop ends its process and every spawn is ready, and a switch that is reverted has had a stop or a start that failed; on success exactly the mode's modules are wanted and run; when it is reverted exactly those wanted before; modules of both modes are not stopped, modules of neither are not touched |
| `ProcessManagers.ProcessManager.HandleExit` | cockpit/navigator/process/process_manager.cc:423-452 | a wanted module is scheduled for restart or given up, and a critical failure is raised exactly then |
| `ProcessManagers.RestartAfterDelay` | cockpit/navigator/process/process_manager.cc:423-452 | a restart is due from its delay on and not before; an exit that was wanted only stops the record |
| `ProcessManagers.ProcessManager.RestartPending` | cockpit/navigator/process/process_manager.cc:454-483 | every due restart is tried once, with a spawn of its own, in order; all other records stay; a failed one of a critical module is a critical failure |
| `ProcessManagers.ProcessManager.ReapExited` | cockpit/navigator/process/process_manager.cc:288-303 | every reported exit is taken by the first record that runs under its identifier, every restart then due is tried, and all other records and the wanted set stay |
| `ProcessManagers.ReapingIsLiving` | cockpit/navigator/process/process_manager.cc:288-303 | reaping is, record by record, the life that the limiter's properties are about |
| `ProcessManagers.ExitsOfSorted` | cockpit/navigator/process/process_manager.cc:288-303 | the exits that one record takes are in the order of the report |
| `ProcessManagers.RecordIsLimiter` | cockpit/navigator/process/process_manager.cc:423-483 | between manual commands a record is the restart limiter |
| `ProcessManagers.RestartsWithinLimit` | cockpit/navigator/process/process_manager.cc:423-483 | between manual commands no closed window holds more restarts of a module than its limit |
| `ProcessManagers.RestartsSinceStart` | cockpit/navigator/process/process_manager.cc:177-191 | the same from a manual start on |
| `ProcessManagers.GivenUpIffWindowFull` | cockpit/navigator/process/process_manager.cc:434-443 | a module is given up if and only if the window that ends now is full |
| `BridgeServices.BridgeService.RefreshLocked` | cockpit/ros/bridge/bridge_service.cc:170-224 | what the provider's news and a timeout do to the guard, and which calls are made |
| `BridgeServices.BridgeService.SubmitNavigationGoal` | cockpit/ros/bridge/bridge_service.cc:88-124 | the calls made, the state afterwards, and what success means |
| `BridgeServices.BridgeService.CancelNavigationGoal` | cockpit/ros/bridge/bridge_service.cc:126-162 | the calls made, the state afterwards; success means that the provider reported cancelled |
| `BridgeServices.BridgeService.GetNavigationStatus` | cockpit/ros/bridge/bridge_service.cc:164-168 | a refresh and nothing more |
| `BridgeServices.GuardHolds` | cockpit/ros/bridge/bridge_service.cc:88-224 | over any run and at every single call: a goal is submitted only when the one before is over, only the goal shown is cancelled, its timeout cancels it at most once, "timed out" is shown only after that cancel and a report that this goal was cancelled, and a held goal is shown as active |
| `BridgeServices.TimeRemembered` | cockpit/ros/bridge/bridge_service.cc:88-124 | over any run the service remembers the clock of the submission of the goal held, and nothing without one |
| `BridgeServices.TimeoutCancelIff` | cockpit/ros/bridge/bridge_service.cc:195-224 | over any run: a request sends the timeout cancel, once and for the goal held, if and only if the clock is the timeout or more behind the goal's submission, that reading was positive, and none was sent; otherwise it sends none |
| `BridgeServices.DirectCallIff` | cockpit/ros/bridge/bridge_service.cc:88-162 | over any run: a valid goal is submitted if and only if the state shown is not disconnected, disabled or active, and a cancel is sent if and only if the state shown is active and the goal is the one shown; a question calls nothing |
| `BridgeServices.AsksUnlessTimedOut` | cockpit/ros/bridge/bridge_service.cc:170-195 | the provider is asked at every request but behind a timeout |
| `BridgeServices.ActiveUntilConfirmed` | cockpit/ros/bridge/bridge_service.cc:170-224 | after an unconfirmed timeout cancel the service stays active, and submits nothing, until the provider reports this goal, or its cancel, as cancelled, failed or succeeded |
| `AnnexBs.Nals` | cockpit/transfer/rtsp/rtsp_server.cc:71-98 | the loops compute the units between start codes |
| `AnnexBs.Avcc` | cockpit/transfer/rtsp/rtsp_server.cc:99-110 | the units, each behind its four-byte length |
| `AnnexBs.LengthIsBigEndian` | cockpit/transfer/rtsp/rtsp_server.cc:99-110 | the length stands in front in four bytes, the highest first |
| `AnnexBs.SplitsStream` | cockpit/transfer/rtsp/rtsp_server.cc:71-98 | what comes out of a byte stream (section B.1 of ITU-T H.264: leading zeros, any mix of start codes, trailing zeros behind units): each unit followed by the zeros behind it, less one where a short start code comes next |
| `AnnexBs.UnitsUnchangedIff` | cockpit/transfer/rtsp/rtsp_server.cc:71-98 | the units come out as they went in if and only if each has no zeros behind it, or a single one and then a short start code |
| `AnnexBs.PaddingIsDelivered` | cockpit/transfer/rtsp/rtsp_server.cc:71-98 | a stream of two units whose first comes out with a padding zero |
| `AnnexBs.UnpaddedStream` | cockpit/transfer/rtsp/rtsp_server.cc:71-110 | without trailing zeros the units themselves come out, and the converted stream reads back as them |
| `AnnexBs.PrefixedReads` | cockpit/transfer/rtsp/rtsp_server.cc:99-110 | reading by lengths gives the units back |
| `AnnexBs.ConvertsStream` | cockpit/transfer/rtsp/rtsp_server.cc:71-110 | both together: the converted byte stream reads back as the units that came out |
| `FragmentAssemblers.FragmentAssembler.Receive` | cockpit/transfer/rtsp/rtsp_server.cc:268-289 | one datagram's effect on the open frame, and the packet it completes |
| `FragmentAssemblers.PacketsAreCovers` | cockpit/transfer/rtsp/rtsp_server.cc:268-289 | for every arrival order of one frame's fragments, with any repeats: one packet, the concatenation in index order, for every time that all fragments have arrived anew |
| `FragmentAssemblers.OnePacketIff` | cockpit/transfer/rtsp/rtsp_server.cc:268-289 | there is exactly one packet if and only if all fragments arrive, and behind the first point where they have, not all of them arrive once more |
| `FragmentAssemblers.AnyOrder` | cockpit/transfer/rtsp/rtsp_server.cc:268-289 | the same for every permutation |
| `FragmentAssemblers.NoMixedPackets` | cockpit/transfer/rtsp/rtsp_server.cc:268-289 | whatever arrives, no packet mixes fragments of two frames |
| `FragmentAssemblers.NoiseIsHarmless` | cockpit/transfer/rtsp/rtsp_server.cc:268-289 | datagrams that are no fragments, anywhere in between, change nothing |

## Left out

- Durability below the system call: a write whose sync returned is on disk, an unsynced rename is treated as done, and a failed sync is an error that recovery must deal with.
- Reads of the record, the floor and the link never fail for reasons of their own; an unreadable file is a state of the disk.
- Signature, checksum and manifest checks of a package: one parameter, `packageOk`. The health command: one parameter, `healthy`.
- The YAML text of the record and the request and result files.
- The safe-ota path that restarts a running Navigator; only the standalone path is modelled.
- Scaling of floating-point velocities: a request arrives scaled, or as `Unrepresentable`.
- 64-bit overflow of acceleration times elapsed time in the adapter, whose policy puts no bound on the command timeout.
- Motion and odometry payload fields, wall-clock stamps of the chassis state, and the heartbeat the host sends; LiDAR, cameras and the vehicle (non-chassis) codec.
- Opening and sending on sockets in the safety loop; the waits of its reads. What the kernel queue holds is a list of receptions.
- OdometryTimeMappers.ChassisOdometryTimeMapper.Map: the wrap counter is a natural number; the source's 64-bit counter would need 2^64 refused calls to wrap.
- Synthesis, playback waits, metrics and completions of the playback client; 64-bit wrap of playback identifiers; the deadline of the transport.
- ResponseStreams.ResponseReader.Receive: deadlines, polling, cancellation and the sending of the request; status line, header scan and JSON validation are arbitrary functions of their text.
- JsonStrings.DecodeJsonString: a byte of 0x80 or more in place of a hexadecimal digit is taken as unsigned; valid JSON has none.
- HttpBodyDecoders.HttpBodyDecoder.Feed: buffers of 2^64 - 2 bytes and more do not exist.
- The bodies of error messages, and times of first content in a response.
- `StopAll`, `Reload` and `RestartModule`, which only compose stops, starts and switches; crash reports and log lines.
- ProcessManagers.ProcessManager.ReapExited: a process identifier that is reused while its record is still open is not excluded, and the first record with it is taken, as in the source.
- Poses, wall-clock times, messages and goal validation of the bridge; validation is one parameter.
- GStreamer, parameter sets, time stamps of pushed packets, and the header bytes of datagrams in the RTSP server; SPS and PPS extraction.
- Conversation, recording, timeline, sentinel, media, configuration parsing and user interface components: counters, tables and filters without a property that spans operations.
