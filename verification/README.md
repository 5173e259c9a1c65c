# Omega Stick: a verified model

Omega Stick is ESP32 firmware for a joystick that acts as a USB mouse or gamepad. It is updated
over USB by a browser console, and a desktop simulator stands in for the board. This project
models the parts whose correctness spans many calls and proves what they promise over whole runs:

- **Firmware update.** Two links share one OTA engine, one flash with two slots and one counter of
  output holds; a rollback watch, a crash-loop handover and the boot loader act beside them
  (`Flash`, `Update`, `UpdateDevice`, `Health`, `WatchRuns`, `UpdateSystem`, `WatchSystem`, `ImageLife`,
  `Answers`, `UploadIdle`, `UploadIntegrity`, `RebootHold`, `UpdateBoard`, `CrashLog`, `CrashHistory`, `DeviceRuns`).
- **Byte-stream codecs.** The console's resynchronising frame parser with its table-driven CRC-32
  (`Crc32`, `FrameStream`, `FrameRoundTrip`, `FrameDamage`, `FrameParser`), the simulator's WebSocket encoder and decoder
  (`WebSocket`, `WebSocketGrammar`, `WebSocketDecoder`), both over one theory of incremental decoding (`Incremental`).
- **Control loops.** Sensor faults, nudge clicks, drift correction and the calibration gate
  (`SensorFault`, `Drift`, `DriftDwell`, `Calibration`, `Control`, `ControlLoop`, `LoopRuns`, `TickRuns`,
  `Nudges`, `NudgeLife`, `Recalibration`, `CalibrationGate`, `CalibrationRuns`, `QuietUpdate`).
- **Persistence.** The reset log's text form and its crash-safe files (`ResetLogText`,
  `ResetLogLines`, `ResetLogPrefix`, `ResetLogFiles`).
- **Messages.** The simulator's JSON writer and parser (`Json`, `JsonNumbers`, `JsonUnicode`,
  `JsonStrings`, `JsonGrammar`, `JsonRoundTrip`, `JsonParser`, `JsonWriter`), the diagnostics reply (`Diagnostics`) and the
  console's sensor check (`SensorCheck`).

`dafny verify dfyconfig.toml` checks everything.

## How the model is built

Code that changes things in place is a class or a method with a loop; each is proved against a
function of the old state, and the promises are proved about those functions and their runs. What an
operation means is stated once more without that function: by a grammar (`JsonGrammar`,
`WebSocketGrammar`, `ResetLogLines`), a table (`Answers`, `ImageLife`) or the history of a run
(`UploadIdle`, `WatchRuns`, `NudgeLife`, `DriftDwell`, `TickRuns`, `CalibrationRuns`, `SensorFault`).

- One step of a run is one section of code under a mutex, one call of the OTA engine, one tick of
  the polling loop or one reset. A reset may strike between any two steps.
- Bytes are integers from 0 to 255 and words integers below 2^32. Shifts and masks by constants are
  divisions and remainders; exclusive or is defined bit by bit. Wrap-around is written out where a
  field can wrap (the upload total, the boot counter).
- Floats are reals and `hypot` is an arbitrary function, so the proofs about the control loop hold
  for any magnitude. Times are whole numbers, of nanoseconds in the control loops and milliseconds
  elsewhere; durations are truncated where the code truncates them.
- What the outside world answers (the sensor, the host, the file system, the clock, a sweep) is a
  parameter of the step that asks.
- A rollback is two steps, as it is two calls: the last look at the image, and the call that marks it
  invalid. When that call succeeds it does not return, and only a reset can follow.
- The control loop's calls to the outside world are a log, in order.

Where comments and code differ the model follows the code: `CENTER_MARGIN` is 1.5
(`components/omega_calibration/include/omega_calibration.hpp:43-44` speaks of 10%). A control
payload in the WebSocket decoder counts against the size of the open message, which RFC 6455 does
not ask for; `PingInsideFullMessage` shows the consequence and `MessageRoundTrip` the exact
condition. It also accepts lengths in more bytes than needed, which RFC 6455 section 5.2 rules out;
`LongerFormRefusedExactlyWhen` says which ones it refuses.

Some promises turn out to hold only under a condition, which is proved to be exact:

- The reset log is crash-safe once a complete one is in place or can be moved there
  (`ProtectedExactlyWhen`); before that, `FirstSaveIsRightExactlyWhen` says which cut of the very
  first save is harmless and `FirstSaveMisleads` shows one that is not.
- A crash-loop handover is backed by the whole history of the device exactly when the log misses no
  boot between those it tells of, or tells of fewer than four (`JustifiedExactlyWhen`);
  `RunIsMisled` is a run from the factory on to a handover that is not.
- Text between frames comes out as sent exactly when the parser can tell every byte of it from the
  start of a frame (`StreamRoundTripExactlyWhen`); `TextEndingInStartWaits` shows text it cannot tell.
- A confirmed image is rolled back exactly when the confirmation falls between the watch's last look
  and the rollback (`ConfirmedIsRolledBackExactlyWhen`), where
  `components/omega_calibration/include/firmware_health_check.hpp:25-27` says that it never is.
- The hold of a deferred reboot stays up until the restart exactly when no step releases it
  (`HeldExactlyWhileNoneReleases`); `BeginThenAbortReleases` and `AbortReleasesRebootHold` show
  steps that do.

## Model

| member | source | states |
|---|---|---|
| `Crc32.CrcIsReference` | components/omega_calibration/web/omega_protocol.js:59-63 | the byte-wise checksum is the bit-serial CRC-32 of IEEE 802.3 clause 3.2.9 (RFC 1952 section 8), for every message |
| `Crc32.BuildTable` | components/omega_calibration/web/omega_protocol.js:50-58 | the 256 entries built by the nested loops are eight bit steps of their index |
| `Crc32.TableStep` | components/omega_calibration/web/omega_protocol.js:61-61 | one table lookup does what eight bit steps do |
| `Crc32.Crc32` | components/omega_calibration/web/omega_protocol.js:59-63 | the table-driven loop returns the bit-serial checksum |
| `Crc32.UpdatesInjectiveInRegister` | components/omega_calibration/web/omega_protocol.js:61-61 | processing the same bytes never merges two register values |
| `Crc32.BurstDetected` | components/omega_calibration/web/omega_protocol.js:59-63 | two equally long messages that differ only inside four consecutive bytes never share a checksum |
| `Crc32.ChecksumLeavesResidue` | components/omega_calibration/web/omega_protocol.js:59-63 | after a message and its checksum the register is the same constant, whatever the message |
| `Crc32.DamagedCodeword` | components/omega_calibration/web/omega_protocol.js:59-63 | a message with its checksum, damaged inside four consecutive bytes anywhere, also in the checksum or across its border, never passes the check |
| `FrameStream.BuildFrame` | components/omega_calibration/web/omega_protocol.js:65-79 | a request has the documented wire form; a payload over 4096 bytes is refused, and only such a payload |
| `FrameStream.LookIsStable` | components/omega_calibration/web/omega_protocol.js:94-122 | a decision about the front of the input never changes when more input arrives |
| `FrameStream.LookDeliversWire` | components/omega_calibration/web/omega_protocol.js:102-122 | a frame on the wire is delivered with every field, whatever follows it |
| `FrameStream.LookOnlyDeliversWire` | components/omega_calibration/web/omega_protocol.js:102-122 | the bytes taken as a frame are exactly that frame's wire form |
| `FrameStream.ScanConservesBytes` | components/omega_calibration/web/omega_protocol.js:84-133 | every input byte ends up, in order, in one of text, a delivered frame, or the buffer |
| `FrameStream.BufferBound` | components/omega_calibration/web/omega_protocol.js:102-124 | what stays buffered is shorter than 4111 bytes |
| `FrameStream.ScanDeliversOnlyWire` | components/omega_calibration/web/omega_protocol.js:84-133 | whatever is delivered from any stream is well formed and was on the wire |
| `FrameStream.FramesChunkingInvariance` | components/omega_calibration/web/omega_protocol.js:84-133 | frames, text and final buffer do not depend on how the stream is cut into chunks |
| `FrameRoundTrip.StreamRoundTripExactlyWhen` | components/omega_calibration/web/omega_protocol.js:84-133 | texts and frames of any content, with anything behind them, come out exactly as sent if and only if at every byte of the texts the parser sees that no frame starts there |
| `FrameRoundTrip.StreamRoundTrip` | components/omega_calibration/web/omega_protocol.js:84-133 | that is so when behind every "TO" inside a text that text goes on to a length field over 4096, above all when no text says "TO"; a text after the last frame comes out whole but for a T at its very end, which stays buffered |
| `FrameRoundTrip.PrintedTextIsHarmless` | components/omega_calibration/web/omega_protocol.js:107-110 | text without NUL bytes is of that kind if it goes on for nine more bytes behind each "TO" |
| `FrameRoundTrip.TextEndingInStartWaits` | components/omega_calibration/web/omega_protocol.js:102-112 | text that ends in "TO" right before an empty frame of a low type is not: everything waits |
| `FrameDamage.DamagedFrameSkipped` | components/omega_calibration/web/omega_protocol.js:97-114 | a frame damaged inside four consecutive bytes anywhere, magic and checksum included, is never delivered at its position as long as the correlation flag and the length field still give its extent |
| `FrameParsing.FrameParser.Feed` | components/omega_calibration/web/omega_protocol.js:84-133 | one feed returns the frames and the text, and leaves the buffer, that a scan of buffer plus chunk yields |
| `FrameParsing.FrameParser.Split` | components/omega_calibration/web/omega_protocol.js:94-123 | the loop over the merged bytes stops where the scan waits, with its frames and text ranges |
| `FrameParsing.FrameParser.LookAt` | components/omega_calibration/web/omega_protocol.js:102-122 | the checks at one position make the decision of the specification |
| `FrameParsing.FrameParser.SkipPlain` | components/omega_calibration/web/omega_protocol.js:96-101 | the inner loop passes exactly the bytes where no frame can start |
| `Incremental.ChunkingInvariance` | components/omega_calibration/web/omega_protocol.js:84-133 | for any decoder whose decisions are stable: feeding chunks equals feeding their concatenation |
| `Incremental.DriveConserves` | components/omega_calibration/web/omega_protocol.js:84-133 | for any decoder that accounts for the bytes it takes: input equals the raw output followed by what is kept |
| `FrameParsing.FrameParser.FlushStale` | components/omega_calibration/web/omega_protocol.js:134-139 | after enough silence a waiting rest is given up as text; otherwise nothing changes |
| `FrameStream.NothingIsLost` | components/omega_calibration/web/omega_protocol.js:84-139 | over any sequence of chunks and rests given up, no byte is lost, invented or moved |
| `FrameParsing.FrameParser.TakeOne` | components/omega_calibration/web/omega_protocol.js:95-123 | one round of the loop accounts for what it takes |
| `WebSocket.EncodeFrame` | sim/src/ws_protocol.hpp:274-298 | the encoder writes the header, the length form, the mask and the masked payload of RFC 6455 section 5.2 |
| `WebSocket.EncodeHeader` | sim/src/ws_protocol.hpp:274-290 | the three length forms, big-endian |
| `WebSocket.MaskTwice` | sim/src/ws_protocol.hpp:291-297 | masking with the same key twice gives the payload back |
| `WebSocket.LookIsStable` | sim/src/ws_protocol.hpp:342-424 | a decision about one frame never changes when more input arrives |
| `WebSocket.MessagesChunkingInvariance` | sim/src/ws_protocol.hpp:317-335 | messages, open message, buffer and the sticky error do not depend on how the stream is cut |
| `WebSocket.LookIsReact` | sim/src/ws_protocol.hpp:342-424 | decoding an encoded frame does what the frame-level reference machine does with the frame |
| `WebSocket.DecodeUndoesEncode` | sim/src/ws_protocol.hpp:342-424 | decoding any sequence of encoded frames does what the reference machine does with the frames, errors included |
| `WebSocket.FragmentsRun` | sim/src/ws_protocol.hpp:394-424 | fragments with control frames between them join into one message, in order, exactly when they fit |
| `WebSocket.MessageRoundTrip` | sim/src/ws_protocol.hpp:342-424 | any message, however fragmented, masked and interleaved with control frames, is delivered exactly when it keeps to the size rule; otherwise the decoder says too big |
| `WebSocket.PingInsideFullMessage` | sim/src/ws_protocol.hpp:379-382 | a control frame counts against the open message: a ping inside a message of the maximum size is refused |
| `WebSocket.TakesOnlyClientFrames` | sim/src/ws_protocol.hpp:342-424 | whatever the decoder takes is one masked frame with a known opcode and no reserved bit, which the reference machine accepts with the same effect |
| `WebSocket.AnyFormIsReact` | sim/src/ws_protocol.hpp:342-424 | with the length in 0, 2 or 8 extra bytes, shortest or not, a control frame with extra bytes is a protocol error and any other frame does what the reference machine does with it |
| `WebSocket.LongerFormRefusedExactlyWhen` | sim/src/ws_protocol.hpp:362-380 | a length in more bytes than needed, which RFC 6455 section 5.2 rules out, is refused exactly when the frame is a control frame or would be refused with the shortest length too; otherwise it has the same effect |
| `WebSocketGrammar.DecodesByGrammar` | sim/src/ws_protocol.hpp:342-424 | over any client frames in any order: the decoder stays open exactly when no frame is at fault, and has then delivered the control frames and the complete messages, each in its place, and holds what an open one has brought; otherwise it ends at the first frame at fault, with that error and exactly the messages before |
| `WebSocketGrammar.InterruptedMessageIsFault` | sim/src/ws_protocol.hpp:405-408 | for instance: a data frame that begins a message inside another one is a protocol error, and neither is delivered |
| `WebSocketGrammar.VerdictByBytes` | sim/src/ws_protocol.hpp:342-424 | from the bytes at the front alone: a frame that breaks the rules of the header is refused with its second byte, one too big as soon as its length is there, one out of place when it is complete; only an incomplete frame that may still be good is waited for |
| `WebSocketDecoding.Decoder.Feed` | sim/src/ws_protocol.hpp:317-335 | one feed appends the messages and reaches the state that decoding buffer plus bytes yields; after an error nothing more is delivered |
| `WebSocketDecoding.Decoder.ParseOne` | sim/src/ws_protocol.hpp:342-424 | one frame at a position: bytes used, messages, open message and status are those of the specification |
| `WebSocketDecoding.Decoder.TakeIn` | sim/src/ws_protocol.hpp:394-424 | assembly of control and data frames is the reference machine's reaction |
| `WebSocketDecoding.Decoder.ReadFrameHead` | sim/src/ws_protocol.hpp:342-380 | the header fields and the length forms are read as specified |
| `WebSocketDecoding.Decoder.ReadLength` | sim/src/ws_protocol.hpp:362-378 | the big-endian length loop |
| `WebSocketDecoding.Decoder.Unmask` | sim/src/ws_protocol.hpp:385-391 | the unmasking loop |
| `FlashModel.FormatIsBootable` | sim/stubs/sim_flash.hpp:309-316 | a formatted flash satisfies the boot invariant |
| `FlashModel.BootKeepsBootable` | sim/stubs/sim_flash.hpp:329-356 | a boot keeps running and boot slot complete, lets only the running slot be pending, and leaves a pending image something to fall back to |
| `FlashModel.RunningKeepsBootable` | sim/stubs/sim_flash.hpp:390-473 | choosing a boot slot, confirming and rejecting keep the boot invariant |
| `FlashModel.UploadKeepsBootable` | sim/stubs/sim_flash.hpp:475-518 | starting, describing and committing an upload keep it as well, although the other slot is incomplete meanwhile |
| `FlashDevice.FlashMemory.Boot` | sim/stubs/sim_flash.hpp:329-356 | the bootloader's in-place step: an unconfirmed image is aborted and the other one runs, or a new one becomes pending |
| `FlashDevice.FlashMemory.SetBoot` | sim/stubs/sim_flash.hpp:390-408 | refused for a slot that holds no image or an incomplete one; otherwise that slot counts as new and boots next |
| `FlashDevice.FlashMemory.MarkInvalidAndRollback` | sim/stubs/sim_flash.hpp:457-473 | succeeds exactly when the other slot holds a complete image whose state is new, pending or valid |
| `FlashDevice.FlashMemory.MarkValid` | sim/stubs/sim_flash.hpp:435-440 | the running image is confirmed and nothing else changes |
| `FlashDevice.FlashMemory.Format` | sim/stubs/sim_flash.hpp:309-316 | one valid image in the running slot, nothing in the other |
| `FlashDevice.FlashMemory.BeginUpload` | sim/stubs/sim_flash.hpp:475-491 | the other slot is erased and, if it was to boot next, no longer is |
| `FlashDevice.FlashMemory.UploadDescriptor` | sim/stubs/sim_flash.hpp:493-502 | the other slot names the image but stays incomplete |
| `FlashDevice.FlashMemory.CommitImage` | sim/stubs/sim_flash.hpp:504-518 | the other slot becomes complete, with this descriptor, and boots next |
| `ImageLife.DescriptorExactlyWhen` | sim/stubs/sim_flash.hpp:235-255 | an image has a descriptor exactly when it has its first 288 bytes, with the first byte and the magic word right; it is the last 256 of them |
| `ImageLife.FactoryHolds` | sim/stubs/sim_flash.hpp:309-356 | a brand-new board runs one confirmed image, holds nothing else, and knows of no handover |
| `ImageLife.UploadCannotBeChosen` | sim/stubs/sim_flash.hpp:390-408 | during an upload the other slot is refused as the boot slot: as empty until the descriptor is there, then as incomplete |
| `ImageLife.FlashFollowsTable` | sim/stubs/sim_flash.hpp:329-518 | in every run from the factory on, each step changes what both slots hold, which one runs, which one boots next and the handover marker exactly as a table says: by what the host was granted, the rollbacks and the resets |
| `ImageLife.MarkerAsTabled` | components/omega_calibration/include/firmware_health_check.hpp:104-112 | the marker after each step, and that a device restarts exactly when it hands over, rejects its image or has its boot cut short |
| `ImageLife.BecomesValidExactlyWhen` | main/main.cpp:466-479 | an image becomes valid exactly when the host confirms it while it runs, or when it is untried and a boot runs it that a handover asked for |
| `UpdateDevice.Ota.Begin` | sim/stubs/ota.hpp:53-71 | a session starts, and the other slot is erased, only when none is active and the running image is confirmed |
| `UpdateDevice.Ota.Write` | sim/stubs/ota.hpp:72-86 | bytes are appended in order; the descriptor goes to the flash once, when it is complete |
| `UpdateDevice.Ota.Finish` | sim/stubs/ota.hpp:87-102 | an image without a valid descriptor is refused; otherwise it is committed; the session ends either way |
| `UpdateDevice.Ota.Abort` | sim/stubs/ota.hpp:103-107 | the session ends and its bytes are dropped |
| `UpdateDevice.CalibrationService.HandleFrame` | components/omega_calibration/include/calibration_service.hpp:668-889 | each firmware-update request changes engine, owner, hold, deferred action and time stamp as specified, errors included |
| `UpdateDevice.CalibrationService.HandleBegin` | components/omega_calibration/include/calibration_service.hpp:668-714 | the owner may restart its own session; the other link and a foreign session are refused |
| `UpdateDevice.CalibrationService.HandleData` | components/omega_calibration/include/calibration_service.hpp:715-738 | a chunk is taken only from the owner and at the expected offset |
| `UpdateDevice.CalibrationService.HandleRevert` | components/omega_calibration/include/calibration_service.hpp:821-863 | a revert is refused during a session and for a slot that does not verify; otherwise the output is held and a reboot deferred |
| `UpdateDevice.CalibrationService.HandleFinish` | components/omega_calibration/include/calibration_service.hpp:739-757 | a committed image defers a reboot under hold; a refused one releases the hold |
| `UpdateDevice.CalibrationService.HandleMode` | components/omega_calibration/include/calibration_service.hpp:981-1001 | a change of mode is deferred under hold; the mode already set is answered at once |
| `UpdateDevice.CalibrationService.AbortUpdate` | components/omega_calibration/include/calibration_service.hpp:554-563 | a lost link drops its own session and hold, and nobody else's |
| `UpdateDevice.CalibrationService.RunAfterReply` | components/omega_calibration/include/calibration_service.hpp:1243-1261 | the deferred action runs only when the reply was queued; otherwise it is dropped with the hold |
| `UpdateDevice.CalibrationService.ExpireStaleUpdate` | components/omega_calibration/include/calibration_service.hpp:580-601 | an idle session is aborted and its hold released, by its owner only; a service busy with a frame does nothing |
| `UpdateDevice.CalibrationService.HoldOutput` | components/omega_calibration/include/calibration_service.hpp:1184-1192 | only edges reach the shared counter |
| `Answers.AnsweredAsTabled` | components/omega_calibration/include/calibration_service.hpp:668-1001 | what each request is answered, every error code included, told by who uploads, the bytes received and what the slots hold; the engine never has another error than busy or bad message |
| `Answers.LeftAsTabled` | components/omega_calibration/include/calibration_service.hpp:668-1001 | whether the link then uploads, holds, and waits to reboot or switch, and the bytes received, told by the request and its answer |
| `Answers.RunAnswers` | components/omega_calibration/include/calibration_service.hpp:981-1261 | in every run from the factory on: each request is answered as tabled, a link waits for what its requests were granted since its last reply, and the mode only ever becomes what was asked for there |
| `ServiceModel.HandleKeepsConsistent` | components/omega_calibration/include/calibration_service.hpp:650-889 | every frame keeps: session active exactly when one link owns it, the owner holds, the counter moves with this link's hold only, and the flash stays safe |
| `ServiceModel.OthersKeepConsistent` | components/omega_calibration/include/calibration_service.hpp:554-601 | so do a reply sent or lost, an expiry check and a lost link |
| `UpdateSystem.NextInvariant` | components/omega_calibration/include/calibration_service.hpp:580-889 | one step of either link, the health check, a rejected boot or a reset keeps the system invariant |
| `UpdateSystem.EveryRunIsSafe` | main/main.cpp:940-961 | in every run from the factory on, boots cut short included: complete running and boot slots, a session owned by exactly one link, the counter equal to the number of holders, and the output held during every upload |
| `UpdateSystem.QuietStep` | components/omega_calibration/include/firmware_health_check.hpp:245-290 | without a confirmation or a reset an unconfirmed image stays, and stays unconfirmed, exactly until a rollback that is possible, which marks it invalid and restarts into the other image |
| `UpdateSystem.ResetAbandons` | sim/stubs/sim_flash.hpp:329-356 | the next reset runs the other image, the unconfirmed one is aborted, and no handover brings it back |
| `UpdateSystem.UnconfirmedNeverReturns` | sim/stubs/sim_flash.hpp:329-356 | over any run without a confirmation, an unconfirmed image is still pending or was rolled back; the next reset runs the other image without a handover and leaves this one aborted, or invalid after a rollback |
| `UpdateSystem.ResetAfterRollback` | sim/stubs/sim_flash.hpp:457-473 | the reset that ends a rollback runs the other image, leaves the rejected one invalid and hands over nothing |
| `UpdateSystem.ConfirmedIsRolledBackExactlyWhen` | components/omega_calibration/include/firmware_health_check.hpp:280-290 | in every run from the factory on, a rollback rejects a confirmed image if and only if the confirmation came after the last look at the image and the other slot can be rolled back to |
| `UpdateSystem.LateConfirmationIsLost` | components/omega_calibration/include/firmware_health_check.hpp:25-27 | such a run: a confirmation answered OK between that look and the rollback, and the next boot runs the other image |
| `UploadIntegrity.ChunkTakenExactlyWhenNext` | components/omega_calibration/include/calibration_service.hpp:715-738 | a chunk is acknowledged exactly when the owner sends the next bytes; the reply is the running total; any other chunk changes nothing |
| `UploadIntegrity.ImageIsWhatWasAcknowledged` | components/omega_calibration/include/calibration_service.hpp:685-738 | in every run the image of an open session is the in-order concatenation of the chunks acknowledged since its own begin |
| `UploadIntegrity.FinishCommits` | components/omega_calibration/include/calibration_service.hpp:739-757 | a finish answered OK commits the image received and makes it boot next; a refused one leaves the boot choice alone |
| `UploadIntegrity.FinishCommitsWhatWasAcknowledged` | components/omega_calibration/include/calibration_service.hpp:739-757 | in every run from the factory on, what a finish commits is what the host was told had arrived |
| `UploadIntegrity.HalfAnUploadNeverBoots` | sim/stubs/sim_flash.hpp:475-518 | a reset in the middle of an upload boots a complete image, not the partial one |
| `QuietUpdate.UploadKeepsStickAtRest` | main/main.cpp:940-961 | in every run, a tick of either loop that samples the hold counter during an upload sends a neutral report and starts no nudge |
| `UploadIntegrity.UploadKeepsGoing` | components/omega_calibration/include/calibration_service.hpp:580-889 | no step but its own link's begin, finish, abort, revert or loss, an expiry check with no begin or chunk answered OK for the idle time, or a reset ends an upload |
| `UploadIntegrity.UploadSurvives` | components/omega_calibration/include/calibration_service.hpp:580-889 | in every run from the factory on, over any stretch without such a step the session stays with its link and its image only grows |
| `UploadIdle.StampIsLatestFeed` | components/omega_calibration/include/calibration_service.hpp:668-738 | in every run from the factory on, the time stamp of a link that uploads is the time of its latest begin or chunk answered OK |
| `UploadIdle.ExpiryEndsExactlyWhen` | components/omega_calibration/include/calibration_service.hpp:580-601 | in every such run an expiry check ends an upload, and drops its hold, if and only if no begin or chunk of that link was answered OK within the idle time; otherwise it changes nothing |
| `UploadIdle.FedUploadIsKept` | components/omega_calibration/include/calibration_service.hpp:715-738 | for instance: a chunk 25 s after the begin keeps the upload through a check 6 s later that allows 30 |
| `RebootHold.RequestRaisesHold` | components/omega_calibration/include/calibration_service.hpp:739-889 | whatever defers an action raises the hold first |
| `RebootHold.ReleasedExactlyBy` | components/omega_calibration/include/calibration_service.hpp:554-889 | one step takes a hold down exactly when it restarts the device, or ends the link's own session (abort, refused finish, revert, idle expiry, lost link), or, without a session, loses the reply an action waits for |
| `RebootHold.HeldExactlyWhileNoneReleases` | components/omega_calibration/include/calibration_service.hpp:554-889 | in every run from the factory on, over any stretch the hold is up after every step if and only if no step of it is such a step, where an upload is idle by the requests answered OK |
| `RebootHold.HeldUntilRestart` | components/omega_calibration/include/calibration_service.hpp:1243-1261 | over any run, a link that holds and owns no session keeps the output held as long as the device does not restart, the link's reply is not lost and no upload of the link is accepted, whatever the other link does |
| `RebootHold.BeginThenAbortReleases` | components/omega_calibration/include/calibration_service.hpp:668-767 | the upload condition is needed: restart request, accepted begin before the reboot, abort, and the hold is gone |
| `RebootHold.AbortReleasesRebootHold` | components/omega_calibration/include/calibration_service.hpp:758-767 | a link that owns a session loses the hold of a reboot already on its way by aborting it |
| `UpdateBoard.Board.constructor` | main/main.cpp:844-866 | a boot runs loader and prologue and wires one engine, one hold counter and one mode to two services and a watch: the state of a restart |
| `UpdateBoard.Board.Frame` | components/omega_calibration/include/calibration_service.hpp:650-889 | a request to either service object moves the shared objects as the step of the two-link system says, and is answered as the protocol says |
| `UpdateBoard.Board.ReplySent` | components/omega_calibration/include/calibration_service.hpp:1243-1261 | so does a reply handed over or lost |
| `UpdateBoard.Board.ExpiryCheck` | components/omega_calibration/include/calibration_service.hpp:580-601 | so does an expiry check, unless the service is busy |
| `UpdateBoard.Board.LinkLost` | components/omega_calibration/include/calibration_service.hpp:554-563 | so does a lost link |
| `UpdateBoard.Board.HealthCheck` | main/main.cpp:381-389 | so does a health check up to the last look at the image |
| `UpdateBoard.Board.RollBack` | components/omega_calibration/include/firmware_health_check.hpp:284-288 | so does the rollback that follows, whatever the links did meanwhile |
| `UpdateBoard.Board.Reject` | components/omega_calibration/include/firmware_health_check.hpp:151-159 | so does a fatal failure at start |
| `UpdateBoard.Board.Reset` | main/main.cpp:405-479 | so does a reset: the board that comes after it is in the state of the next step |
| `WatchRuns.RollbackIsEarned` | components/omega_calibration/include/firmware_health_check.hpp:245-275 | a rollback only follows a hold that went up past the deadline, with the image unconfirmed, and has been up for the hold time |
| `WatchRuns.ActsNoMore` | components/omega_calibration/include/firmware_health_check.hpp:245-275 | after a confirmation seen by a check, or a rollback asked for, the watch does nothing more |
| `WatchRuns.HoldGoesUp` | components/omega_calibration/include/firmware_health_check.hpp:253-275 | an unconfirmed image does not escape: by the first check an interval past the deadline the hold is up |
| `WatchRuns.RollbackFollows` | components/omega_calibration/include/firmware_health_check.hpp:246-252 | and the first check a hold time later asks for the rollback |
| `WatchRuns.HoldsExactlyWhen` | components/omega_calibration/include/firmware_health_check.hpp:253-275 | told from the checks alone: the hold goes up with exactly the first check past the deadline that comes an interval after the last one that looked, if every look before found the image unconfirmed |
| `WatchRuns.RollsBackExactlyWhen` | components/omega_calibration/include/firmware_health_check.hpp:245-252 | and the rollback is asked for with exactly the first check a hold time later |
| `WatchSystem.ChecksActExactlyWhen` | components/omega_calibration/include/firmware_health_check.hpp:245-290 | in any run after a reset, whatever the links do meanwhile: a health check of the device puts the output on hold exactly with the first of these, and begins a rollback exactly with the second, if the image is unconfirmed still |
| `HealthModel.BootDeviceKeepsBootable` | main/main.cpp:466-479 | boot loader plus boot prologue keep the boot invariant |
| `HealthModel.HandoverLands` | components/omega_calibration/include/firmware_health_check.hpp:121-134 | the restart a handover asks for runs the other slot, which was complete and not rejected, and leaves the prologue with it valid |
| `HealthModel.AtMostOneHandover` | components/omega_calibration/include/firmware_health_check.hpp:104-112 | between two power-ons at most one handover happens, whatever the crashes and the flash |
| `HealthDevice.FirmwareHealthCheck.Tick` | components/omega_calibration/include/firmware_health_check.hpp:245-275 | nothing once confirmed; past the deadline a hold, and a rollback after the hold time |
| `HealthDevice.FirmwareHealthCheck.RollbackNow` | components/omega_calibration/include/firmware_health_check.hpp:280-290 | with nothing in between its two calls: rolls back only while still pending; returns when the host confirmed meanwhile or the other slot cannot take over |
| `HealthDevice.StartHealthCheck` | main/main.cpp:381-389 | a check up to the last look at the image: an image confirmed by then ends the hold |
| `HealthDevice.FinishRollback` | components/omega_calibration/include/firmware_health_check.hpp:284-288 | the rollback itself no longer looks at the image; the hold comes down only when it fails |
| `HealthDevice.RunHealthCheck` | main/main.cpp:381-393 | the hold of a cancelled rollback is given back |
| `HealthDevice.TakeHandoverMarker` | components/omega_calibration/include/firmware_health_check.hpp:104-112 | a request becomes done, done stays until a power-on, anything else is cleared |
| `HealthDevice.RevertIfCrashLooping` | components/omega_calibration/include/firmware_health_check.hpp:197-237 | switches exactly when the last crashes reach the threshold, the image is confirmed and the other slot is complete and was not rejected |
| `HealthDevice.BootPrologue` | main/main.cpp:466-479 | marker, handover decision and acceptance of the image a handover booted |
| `CrashLog.CrashesWhileRunning` | components/omega_calibration/include/firmware_health_check.hpp:184-193 | a reset is charged to the slot of the boot before it, oldest first |
| `CrashLog.CrashLoopingMeansLastRunsCrashed` | components/omega_calibration/include/firmware_health_check.hpp:184-208 | the decision on the crash list holds exactly when the last n completed runs of the slot all ended in crashes |
| `CrashLog.NewestDecide` | components/omega_calibration/include/firmware_health_check.hpp:184-208 | the decision on the newest boots of a history is the decision on all of it as long as they hold that many runs of the slot, and otherwise no |
| `CrashHistory.ReplayTells` | main/main.cpp:424-437 | after any boots, the log on file is the records of exactly the boots whose saves got through since it could last be read |
| `CrashHistory.JustifiedExactlyWhen` | main/main.cpp:428-471 | every crash-loop decision on the log is backed by the last three completed runs of the whole history if and only if the log tells of fewer than four boots or misses none between those it tells of |
| `CrashHistory.GaplessDecides` | components/omega_calibration/include/firmware_health_check.hpp:184-208 | on a log without gaps the decision is the one on the whole history, as long as the log holds that many runs of the slot |
| `CrashHistory.KeptLeavesNoGap` | main/main.cpp:424-437 | there is no gap when each of the last fifteen boots, or all there were, read the log and saved it |
| `CrashHistory.HandoverIsJustified` | main/main.cpp:424-479 | boots with power loss and failing file operations at any point, then one more boot: what its check is given are the crashes of exactly the boots that got through, and a handover on a log without gaps means that the last three completed runs of this slot crashed |
| `CrashHistory.LostBootMisleads` | main/main.cpp:435-437 | with the save of one boot of the other slot lost, its crash is charged to this slot and the device is handed over although the last three runs of this slot did not all crash |
| `DeviceRuns.HistoryIsTrue` | main/main.cpp:415-437 | in every run of flash and log together, also over boots cut short, each boot is recorded with the slot that then runs, and nothing but a boot changes that slot |
| `DeviceRuns.HandsOverExactlyWhen` | main/main.cpp:424-479 | in every such run a boot that sees a log without gaps hands over if and only if the last three completed runs of its slot crashed in the device's own history, the log tells of three, none happened since power-on, and the other slot can take over |
| `DeviceRuns.RunIsMisled` | main/main.cpp:424-479 | for any two images, a run from the factory on with one save lost in which a handover is not justified: upload, confirmation, a revert whose reboot is a crash, confirmation, crash |
| `CrashLog.OthersCrashesNeverCount` | components/omega_calibration/include/firmware_health_check.hpp:184-193 | crashes that ended runs of the other slot never change the decision |
| `ResetLogText.ParseU32` | components/omega_calibration/include/reset_log.hpp:245-261 | the digit loop accepts exactly the decimal numbers that fit 32 bits |
| `ResetLogText.U32TextRoundTrip` | components/omega_calibration/include/reset_log.hpp:245-261 | reading a printed number gives it back |
| `ResetLogText.IntTextRoundTrip` | components/omega_calibration/include/reset_log.hpp:263-275 | a printed 32-bit signed number reads back exactly when it is not the most negative one, which is refused |
| `ResetLogText.ValueRoundTrip` | components/omega_calibration/include/reset_log.hpp:277-322 | an entry's value reads back, with commas and equals signs in the name |
| `ResetLogText.LegacyRoundTrip` | components/omega_calibration/include/reset_log.hpp:303-319 | entries of the older form, with the slot in parentheses after the name, are still read |
| `ResetLogText.LogRoundTrip` | components/omega_calibration/include/reset_log.hpp:110-139 | reading the saved text gives back the boot counter and every entry |
| `ResetLogText.EntrySurvivesExactlyWhenFaithful` | components/omega_calibration/include/reset_log.hpp:168-176 | an entry survives its text form exactly when its reason is not the most negative integer, its slot has no comma or line break, and its name no line break and no trailing carriage return |
| `ResetLogLines.U32ExactlyWhen` | components/omega_calibration/include/reset_log.hpp:245-261 | a number is taken exactly when it is decimal digits, leading zeros allowed, whose value fits 32 bits |
| `ResetLogLines.I32ExactlyWhen` | components/omega_calibration/include/reset_log.hpp:263-275 | a signed one exactly when it is such digits up to 2^31-1, with or without a minus |
| `ResetLogLines.EntryExactlyWhen` | components/omega_calibration/include/reset_log.hpp:277-322 | a value is read as an entry exactly when its fields say that entry: any flag but zero means abnormal, everything behind the fourth comma is the name |
| `ResetLogLines.OldEntryExactlyWhen` | components/omega_calibration/include/reset_log.hpp:303-319 | the same for the older form, where a label in parentheses at the end is the slot and any other name is taken whole |
| `ResetLogLines.LineExactlyWhen` | components/omega_calibration/include/reset_log.hpp:110-139 | a line, without one carriage return at its end, is read as a counter or an entry of either form exactly when it says that; any other line says nothing |
| `ResetLogLines.LinesOfText` | components/omega_calibration/include/reset_log.hpp:110-139 | a text is split at its line breaks and nowhere else |
| `ResetLogLines.TextHolds` | components/omega_calibration/include/reset_log.hpp:110-142 | a load finds the number of the last counter line and the newest of the entries the lines say, in their order; lines that say nothing leave no trace |
| `ResetLogFiles.SaveIsAtomic` | components/omega_calibration/include/reset_log.hpp:159-208 | in every file state of a save the next load reads the old text or the new one, complete |
| `ResetLogFiles.BootIsAtomic` | components/omega_calibration/include/reset_log.hpp:89-208 | wherever the power fails in load, record and save, the next load sees the log as it was or with this boot recorded, on its own when the log could not be opened |
| `ResetLogFiles.HistorySurvives` | components/omega_calibration/include/reset_log.hpp:89-208 | any number of boots with power loss at any point leaves exactly the log of the boots whose save got through, as long as no boot finds a lone temporary file it cannot move |
| `ResetLogFiles.BootsAreNumbered` | components/omega_calibration/include/reset_log.hpp:144-157 | boots whose save got through are numbered one after the other in 32 bits; the last one stands at the end of the log with its number and its reset |
| `ResetLogFiles.ProtectedExactlyWhen` | components/omega_calibration/include/reset_log.hpp:89-103 | a log on the device survives whatever a boot meets if and only if it is in place or can be moved there; a lone temporary file that cannot be moved is overwritten by the next save |
| `ResetLogPrefix.CutLoads` | components/omega_calibration/include/reset_log.hpp:110-139 | the text of a first log, cut anywhere, loads as no log or as the whole one, except exactly when it is cut behind the boot counter and before the end of the reset's name |
| `ResetLogFiles.FirstSaveIsRightExactlyWhen` | components/omega_calibration/include/reset_log.hpp:95-208 | before there is a complete log, a first boot leaves the next load nothing or this boot recorded if and only if its text was not cut in that place |
| `ResetLogFiles.FirstSaveMisleads` | components/omega_calibration/include/reset_log.hpp:95-208 | for instance: power lost right after the first line makes the next load read a log of one boot without its reset |
| `ResetLogFiles.ResetLog.Load` | components/omega_calibration/include/reset_log.hpp:89-142 | a lone temporary file is moved into place, then the text is read and trimmed; a move or an open that fails leaves the log empty and says so |
| `ResetLogFiles.ResetLog.ReadAll` | components/omega_calibration/include/reset_log.hpp:110-139 | the line loop adds what each line says |
| `ResetLogFiles.ResetLog.Trim` | components/omega_calibration/include/reset_log.hpp:324-333 | the newest entries stay; a limit of zero keeps none |
| `ResetLogFiles.ResetLog.Format` | components/omega_calibration/include/reset_log.hpp:168-176 | the line loop writes the text of the log |
| `ResetLogFiles.ResetLog.Record` | components/omega_calibration/include/reset_log.hpp:144-157 | the counter wraps at 32 bits; the newest entries are kept |
| `ResetLogFiles.ResetLog.Save` | components/omega_calibration/include/reset_log.hpp:159-208 | goes through exactly the file states of the specification |
| `JsonGrammar.ParseUndoesDump` | sim/src/json.cpp:108-414 | parsing the printed form gives the value back exactly when it nests no deeper than 32 levels; deeper values are refused |
| `JsonRoundTrip.LiteralReads` | sim/src/json.cpp:193-231 | a number that is no integer below 1e15 in magnitude reads back as the literal it was printed as |
| `JsonGrammar.EveryDocumentIsRead` | sim/src/json.cpp:108-414 | every document of the grammar of RFC 8259, with any blanks it allows, any spelling of its strings and numbers and any repeated names, is accepted and means what it says, unless it nests deeper than 32 levels; then it is refused |
| `JsonGrammar.OnlyDocumentsAreRead` | sim/src/json.cpp:108-414 | nothing else is accepted: an accepted text is such a document between blanks, nested no deeper, and what was read is what it says |
| `JsonGrammar.WritesDocuments` | sim/src/json.cpp:13-101 | what the writer prints is a document of that grammar, without blanks, that says the value |
| `JsonGrammar.SetAllMerges` | sim/src/json.cpp:374-408 | an object has each name where it first appeared, with the last value given to it |
| `JsonGrammar.NumeralSays` | sim/src/json.cpp:193-231 | a numeral of at most fifteen digits without fraction and exponent is that integer, but for a minus zero; any other is its literal |
| `JsonNumbers.NumeralReads` | sim/src/json.cpp:193-231 | every number literal that RFC 8259 section 6 allows is taken whole |
| `JsonNumbers.TakesOnlyNumerals` | sim/src/json.cpp:193-231 | and nothing else is taken as a number |
| `JsonUnicode.EscapeReadsScalar` | sim/src/json.cpp:320-338 | every Unicode scalar value is read back from its escape, surrogate pairs included |
| `JsonUnicode.Utf8Decodes` | sim/src/json.cpp:259-275 | what is appended for a scalar value is its UTF-8 form (RFC 3629 section 3) |
| `JsonUnicode.EscapesAreScalars` | sim/src/json.cpp:320-338 | no lone surrogate gets in: whatever an escape yields is the UTF-8 form of a scalar value |
| `JsonRoundTrip.StringReads` | sim/src/json.cpp:277-346 | any byte string reads back from its escaped form (RFC 8259 section 7) |
| `JsonStrings.SpelledStringReads` | sim/src/json.cpp:277-346 | a string whose characters are each spelled in any form of the table of RFC 8259 section 7, raw, short escape or hexadecimal in either letter case, reads back as the bytes they stand for |
| `JsonStrings.OnlySpelledStrings` | sim/src/json.cpp:277-346 | nothing else is taken as a string: no other escape letter, no raw control character, no lone surrogate |
| `JsonStrings.WriterSpells` | sim/src/json.cpp:13-44 | how the writer spells each byte in terms of that table: five short escapes, small hexadecimal digits for the other control characters, and the rest as it is |
| `JsonRoundTrip.NumberReads` | sim/src/json.cpp:193-231 | any exact integer reads back, whatever may follow a number |
| `JsonRoundTrip.ParseAcceptsOnlyProperValues` | sim/src/json.cpp:108-122 | every accepted text is a value without repeated names, nested no deeper than allowed |
| `JsonGrammar.JoinedReads` | sim/src/json.cpp:348-408 | the comma-separated rows of arrays and objects read back element by element |
| `JsonParsing.Parser.Run` | sim/src/json.cpp:108-129 | the parser accepts exactly what the grammar functions read to the last byte; it terminates on every input |
| `JsonParsing.Parser.ParseValue` | sim/src/json.cpp:154-191 | stands behind the value it read; the depth limit comes first |
| `JsonParsing.Parser.ParseNumber` | sim/src/json.cpp:193-231 | takes the longest number and refuses bad fractions and exponents |
| `JsonParsing.Parser.ParseString` | sim/src/json.cpp:277-346 | escapes, surrogate pairs and control characters as specified |
| `JsonParsing.Parser.ParseArray` | sim/src/json.cpp:348-372 | the items up to the closing bracket, one level deeper |
| `JsonParsing.Parser.ParseObject` | sim/src/json.cpp:374-408 | the members up to the closing brace, one level deeper |
| `JsonParsing.Parser.ParseUnicode` | sim/src/json.cpp:320-338 | what follows the u of an escape: one code unit or a surrogate pair |
| `JsonParsing.Parser.ParseHex4` | sim/src/json.cpp:235-257 | four hexadecimal digits and their value |
| `JsonParsing.Parser.ParseMembers` | sim/src/json.cpp:374-408 | a repeated name keeps its place and takes the last value |
| `JsonParsing.Set` | sim/src/json.hpp:104-117 | a member is replaced in place, or appended when its name is new |
| `JsonWriting.Writer.AppendEscaped` | sim/src/json.cpp:13-44 | appends the quoted, escaped form of a string |
| `JsonWriting.Writer.DumpTo` | sim/src/json.cpp:60-101 | appends exactly the text of the value |
| `SensorFaultDevice.SensorFaultMonitor.Update` | components/omega_calibration/include/omega_calibration.hpp:893-944 | one reading moves every counter as specified; the result says whether a fault is in effect |
| `SensorFaultModel.ObserveReflects` | components/omega_calibration/include/omega_calibration.hpp:893-990 | every counter of the monitor is a measure of the history it has seen |
| `SensorFaultModel.FaultExactlyWhenHeld` | components/omega_calibration/include/omega_calibration.hpp:893-944 | a fault is in effect exactly when some reading tripped it and nothing later recovered or replaced it |
| `SensorFaultModel.FaultedExactlyWhen` | components/omega_calibration/include/omega_calibration.hpp:893-990 | the monitor is faulted exactly while its history says so, and counts the faults of the history |
| `SensorFaultModel.FirstFaultIsFirst` | components/omega_calibration/include/omega_calibration.hpp:953-990 | the first fault on file is the first one any reading of the history tripped |
| `SensorFaultModel.CleanRunMeans` | components/omega_calibration/include/omega_calibration.hpp:934-942 | recovery takes that many clean reads in a row |
| `SensorFaultModel.FailuresTrip` | components/omega_calibration/include/omega_calibration.hpp:894-901 | enough failed reads in a row always trip the monitor |
| `DriftModel.DriftCompensator.Update` | components/omega_calibration/include/omega_calibration.hpp:804-825 | when the center may be nudged, by how much, and what is remembered |
| `DriftModel.NudgesAreSpaced` | components/omega_calibration/include/omega_calibration.hpp:804-830 | nudges lie at least 500 ms apart in every run, also across restarts |
| `DriftDwell.NudgesExactlyWhen` | components/omega_calibration/include/omega_calibration.hpp:804-825 | told from the events: the center is nudged at a sample if and only if a sample at least 2000 ms earlier began a rest, with every sample from it on at magnitude at most 0.05 and no restart between, and the latest nudge since the last restart, if any, is at least 500 ms old |
| `DriftModel.SavesBounded` | components/omega_control/include/omega_control.hpp:225-235 | over a span T there are at most T/500ms+1 nudges and a twentieth as many saves |
| `DriftModel.GapShrinks` | components/omega_calibration/include/omega_calibration.hpp:820-821 | n nudges toward a constant reading leave exactly (1-rate)^n of the gap |
| `DriftModel.NeverOvershoots` | components/omega_calibration/include/omega_calibration.hpp:820-821 | the center never passes the reading |
| `ControlDevice.MouseLoop.Tick` | components/omega_control/include/omega_control.hpp:452-510 | one tick changes the state and calls the ports, in order, as specified |
| `ControlDevice.XacLoop.Tick` | components/omega_control/include/omega_control.hpp:512-545 | the same for the gamepad loop |
| `ControlDevice.MouseLoop.DetectNudge` | components/omega_control/include/omega_control.hpp:257-310 | window, thresholds, switch and baseline of nudge detection |
| `ControlDevice.Engine.SensorUpdate` | components/omega_control/include/omega_control.hpp:431-448 | the monitor's edges are reported once, and the first healthy stretch once per boot |
| `ControlDevice.Engine.DriftUpdate` | components/omega_control/include/omega_control.hpp:225-235 | a nudge is handed to the store and every twentieth asks for a save |
| `ControlDevice.MouseLoop.MakeReport` | components/omega_control/include/omega_control.hpp:312-336 | the report of the nudge held, with the scroll counter advanced |
| `ControlDevice.Engine.Recalibrate` | components/omega_control/include/omega_control.hpp:368-384 | a neutral report before and after the sweep; drift starts over; only a successful sweep changes the calibration |
| `NudgeRuns.AlwaysMeasured` | components/omega_control/include/omega_control.hpp:248-310 | while the sensor is trusted the loop measures from some earlier tick with only live ticks since |
| `NudgeRuns.NudgeProvenance` | components/omega_control/include/omega_control.hpp:248-310 | with a positive threshold, a click comes from a movement measured from an earlier tick, at least the hold time ago, and every tick since was enabled, not held, not faulty and not recalibrating |
| `NudgeRuns.NothingHeldUnlessLive` | components/omega_control/include/omega_control.hpp:452-490 | a tick that is not live ends any nudge |
| `NudgeLife.NudgeFollowsRule` | components/omega_control/include/omega_control.hpp:257-310 | in any run, the nudge after every tick is the one that the readings and settings of the run say |
| `NudgeLife.EndsExactlyWhen` | components/omega_control/include/omega_control.hpp:293-305 | on a live tick a held nudge ends if and only if the hold time has passed since the tick it is measured from and the magnitude is at most the exit threshold; otherwise it stays the same |
| `NudgeLife.BeginsExactlyWhen` | components/omega_control/include/omega_control.hpp:293-302 | a live tick with none held starts one if and only if the movement since the tick it is measured from earns it, and that one |
| `NudgeRuns.ClassifyPicksDominantAxis` | components/omega_control/include/omega_control.hpp:101-108 | the direction is the axis the stick leans along most; on the diagonal, left or right |
| `NudgeRuns.RunningReportsNudge` | components/omega_control/include/omega_control.hpp:312-336 | a running tick sends one kind of report: the button of the nudge held, a wheel step only for a scroll, and fifteen times the stick, truncated, exactly when none is held |
| `NudgeRuns.ScrollsEveryFifthTick` | components/omega_control/include/omega_control.hpp:324-333 | a held scroll nudge scrolls one step on every fifth tick since it began, and on no other |
| `NudgeRuns.DeltaIsTruncation` | components/omega_control/include/omega_control.hpp:210-221 | movement is truncated toward zero and clamped to 127 |
| `NudgeRuns.MillisIsTruncation` | components/omega_control/include/omega_control.hpp:267-269 | a duration counts in whole milliseconds, truncated toward zero |
| `LoopRuns.XacRunningReportsStick` | components/omega_control/include/omega_control.hpp:343-360 | a running gamepad tick passes both axes through |
| `LoopRuns.MouseNeutralUnlessRunning` | components/omega_control/include/omega_control.hpp:452-502 | held, faulty and recalibrating ticks send neutral reports and nothing else to the host |
| `LoopRuns.XacNeutralUnlessRunning` | components/omega_control/include/omega_control.hpp:512-540 | the same for the gamepad loop |
| `LoopRuns.MouseSharesCommon` | components/omega_control/include/omega_control.hpp:363-448 | both loops change the state they share in the same way |
| `LoopRuns.MonitorSeesEveryTick` | components/omega_control/include/omega_control.hpp:431-448 | in any run of either loop the monitor sees the reading of every tick, whatever else the tick does |
| `LoopRuns.NotRunningWhileFaulty` | components/omega_control/include/omega_control.hpp:486-525 | in any run of either loop, from the reading that trips the monitor until the history recovers, no tick but one that sweeps runs the stick |
| `NudgeRuns.MouseNeutralWhileFaulty` | components/omega_control/include/omega_control.hpp:486-489 | in any run of the mouse loop, every such tick that runs no sweep sends one neutral report and nothing else |
| `LoopRuns.XacNeutralWhileFaulty` | components/omega_control/include/omega_control.hpp:522-525 | the same in any run of the gamepad loop |
| `LoopRuns.DriftFollowsRun` | components/omega_control/include/omega_control.hpp:225-235 | drift state and nudge counter of any run of either loop are those of its drift events |
| `LoopRuns.CorrectsExactlyWhen` | components/omega_control/include/omega_control.hpp:225-235 | in any run of either loop a tick corrects the center exactly where the rule of rest and interval says, by the ticks before it |
| `TickRuns.ModeExactlyWhen` | components/omega_control/include/omega_control.hpp:452-545 | in any run of either loop, which way a tick goes: a hold comes first, a recalibration asked for overrides the hold for calibration and a fault, and a tick runs exactly when none of them is in force by the readings so far |
| `TickRuns.SensorCallsOfRun` | components/omega_control/include/omega_control.hpp:431-448 | a change of the fault is reported when it happens, with the fault in effect and how many there have been, and health once, on the first tick that finds it |
| `TickRuns.CalibrationFollows` | components/omega_control/include/omega_control.hpp:225-384 | the calibration changes exactly by successful sweeps and by due corrections, a fiftieth of the way on both axes, with the trim the store answers |
| `TickRuns.XacCallsOfRun` | components/omega_control/include/omega_control.hpp:512-546 | a tick of the gamepad loop makes exactly these calls in this order: what it says of the sensor; then its report and its correction, a neutral report, or a neutral one on either side of a sweep |
| `TickRuns.MouseCallsOfRun` | components/omega_control/include/omega_control.hpp:452-510 | the same for the mouse loop, with the report of the nudge it holds |
| `LoopRuns.DueAreFew` | components/omega_control/include/omega_control.hpp:225-235 | in any run of either loop over T at most (T/500ms+1)/20 saves fall due |
| `NudgeRuns.MouseDriftSavesAreFew` | components/omega_control/include/omega_control.hpp:504-509 | the mouse loop asks for a save exactly when one is due, so drift-triggered saves number at most (T/500ms+1)/20 |
| `LoopRuns.XacDriftSavesAreFew` | components/omega_control/include/omega_control.hpp:541-546 | the same for the gamepad loop |
| `LoopRuns.CenterFollowsReading` | components/omega_control/include/omega_control.hpp:225-235 | in any run of either loop at a constant raw reading the center has closed both gaps by exactly as many nudges as were counted |
| `RecalibrationModel.OneSweepPerRequest` | components/omega_control/include/omega_control.hpp:560-585 | in every interleaving each accepted request leads to exactly one sweep, and at most one waits or runs |
| `RecalibrationDevice.RecalibrationGate.Request` | components/omega_control/include/omega_control.hpp:564-571 | accepted only while idle |
| `RecalibrationDevice.RecalibrationGate.Take` | components/omega_control/include/omega_control.hpp:574-577 | true exactly once per accepted request |
| `Calibration.UsableExactlyWhenDeadzoneKeepsMargin` | components/omega_calibration/include/omega_calibration.hpp:729-751 | a calibration passes the gate exactly when its automatic deadzone keeps the whole margin over the noise |
| `Calibration.Store.SetMeasuredCalibration` | components/omega_calibration/include/omega_store.hpp:162-174 | center and range are replaced, the trim set from the console is kept, and the joystick follows |
| `Calibration.Store.SetCalibration` | components/omega_calibration/include/omega_store.hpp:144-153 | center and range are replaced outright, trim included, and the joystick follows |
| `CalibrationGateDevice.EspPorts.constructor` | main/main.cpp:669-690 | boots held for calibration exactly when what is saved does not load |
| `Calibration.Store.SetManualOffset` | components/omega_calibration/include/omega_store.hpp:178-186 | only the trim changes, and the joystick follows |
| `CalibrationGateDevice.EspPorts.RunSweep` | main/main.cpp:160-210 | an unusable sweep changes nothing; a usable one replaces the calibration and ends the hold |
| `CalibrationGateDevice.EspPorts.ApplyDrift` | main/main.cpp:219-226 | the store takes the drifted center and answers with its own trim |
| `CalibrationGateModel.RunIsSafe` | main/main.cpp:669-690 | in every run: unless the output is held for calibration, usable >= 3 * noise * (1 - 0.001) for the live calibration and for the loop's copy |
| `CalibrationGateModel.HeldExactlyUntilSweep` | main/main.cpp:669-690 | the hold for calibration is up exactly when nothing usable was saved and no sweep has succeeded |
| `CalibrationGateModel.QuietUntilCalibrated` | main/main.cpp:950-964 | with nothing usable saved every report is neutral up to and including the first successful sweep's |
| `CalibrationGateModel.MovesOnlyWhenUsable` | main/main.cpp:950-964 | a tick that moves anything does so on a live calibration that passes the gate |
| `CalibrationRuns.BootTakesSaved` | main/main.cpp:669-690 | a boot takes what is saved, usable or not, and nothing when it cannot be read; it holds the output unless the usable radius is at least 2.997 times the noise |
| `CalibrationRuns.LiveFollows` | main/main.cpp:160-226 | in every run the loop's copy differs from the shared calibration in nothing but the trim, and the shared one changes exactly so: a usable sweep replaces it, with a deadzone of 1.5 times the noise, and keeps the trim, a due correction moves the center a fiftieth of the way, the console sets the trim, and nothing else touches it |
| `CalibrationRuns.TrimIsKept` | components/omega_calibration/include/omega_store.hpp:162-186 | in every run the trim is the one last set from the console, or the one saved; no sweep and no correction loses it |
| `Diagnostics.BuildPayload` | components/omega_calibration/include/calibration_service.hpp:1084-1118 | the loops write the payload of the specification |
| `Diagnostics.ChooseFirst` | components/omega_calibration/include/calibration_service.hpp:1093-1106 | the loop stops at the first of the newest entries that fit |
| `Diagnostics.KeepsTheMostThatFits` | components/omega_calibration/include/calibration_service.hpp:1093-1106 | the reply fits one frame, keeps the newest entries, and no longer run of them would fit |
| `Diagnostics.DecodePayload` | components/omega_calibration/web/omega_protocol.js:248-267 | the reading loop, with truncated entries and names refused |
| `Diagnostics.DecodeUndoesPayload` | components/omega_calibration/web/omega_protocol.js:248-267 | the console reads back every field, the kept resets with names clipped to 255 bytes, and the calibration state |
| `Diagnostics.LaterFieldsIgnored` | components/omega_calibration/web/omega_protocol.js:243-247 | bytes appended by later firmware do not change what is read |
| `Diagnostics.DecodesExactlyReplies` | components/omega_calibration/web/omega_protocol.js:235-267 | a reply is taken exactly when it has the layout, with any flag but zero for abnormal, and is read as what it says; one cut short is refused |
| `SensorCheck.AwaitSensorHealthy` | components/omega_calibration/web/omega_protocol.js:749-770 | however long it goes on: the outcome is that of the first round that ends the check, none ended it before, and when every sleep lasts its 500 ms that is one of the first 24 |
| `SensorCheck.EndsInTime` | components/omega_calibration/web/omega_protocol.js:749-770 | whatever is read, with such sleeps one of the first 24 rounds ends the check |
| `SensorCheck.ProvenMeans` | components/omega_calibration/web/omega_protocol.js:757-759 | confirmed only after a stretch of healthy reads, and nothing else, that spans 1500 ms, whatever the clock does |
| `SensorCheck.StretchProves` | components/omega_calibration/web/omega_protocol.js:757-759 | on a clock that never goes back, any such stretch confirms |

## Left out

- UpdateSystem.EveryRunIsSafe: the hold until a deferred reboot is not part of it; `RebootHold` says exactly how long that hold stays.
- UpdateSystem.NextInvariant: one request is one step. Each service has a mutex of its own, so the requests of the two links can overlap in the firmware, and the calls to the shared engine inside them interleave; the model does not split a request.
- UpdateBoard.Board.Reset: a boot that is cut short leaves no objects and has no method; it is a step of the system.
- FlashDevice.FlashMemory.SetBoot: the restart reason, which only the simulator's script sees, is not modelled.
- FlashDevice.FlashMemory.MarkInvalidAndRollback: the restart reason is not modelled.
- FlashDevice.FlashMemory.Format: the behaviour scripted for the next image and the restart reason are not modelled.
- FlashDevice.FlashMemory.CommitImage: the behaviour scripted for the image and the restart reason are not modelled.
- UpdateDevice.Ota.Write: a descriptor is its bytes; cutting its strings at the first NUL is not modelled.
- UpdateDevice.Ota.Finish: as for `Write`, the strings of the descriptor are not cut.
- UpdateDevice.CalibrationService.HandleFrame: requests outside the update protocol are one kind that changes nothing here, and an error is its kind without its text.
- HealthDevice.BootPrologue: the image a handover boots is confirmed at once; a failing confirmation write is not modelled.
- ResetLogFiles.HistorySurvives: begins with a complete log on the device; `FirstSaveIsRightExactlyWhen` covers the boot before.
- CrashHistory.HandoverIsJustified: which reset reasons are crashes is a parameter; the reason codes are those of the chip's library. `DeviceRuns` says of each boot whether it could read and save the log, and `ReplayTells` what that makes of the files.
- UploadIntegrity.FinishCommits: an image is its bytes and the descriptor in them; the checksums of the ESP image format are not modelled.
- JsonGrammar.ParseUndoesDump: the writer keeps ten digits of a number that is no integer below 1e15 in magnitude; such a number is the literal that is printed, so the rounding itself is not modelled, and one that rounds to an integer comes back as that integer. A number that is not finite is printed as null and does not come back.
- JsonGrammar.EveryDocumentIsRead: such a literal is kept as it is written, and not converted to a floating-point number.
- JsonWriting.Writer.DumpTo: the same numbers.
- JsonParsing.Parser.ParseNumber: a literal that is no integer below 1e15 in magnitude stays a literal; its conversion to a floating-point number is not modelled.
- JsonParsing.Parser.Run: error messages and their byte offsets are not modelled.
- Diagnostics.DecodePayload: names are byte strings; turning them into text with replacement characters is not modelled.
- CalibrationGateModel.RunIsSafe: a run lies between two boots, and each boot starts from arbitrary saved contents, so rounding in the saved file is covered by the load check and not computed. Console trims and a tick are separate steps.
- NudgeRuns.NudgeProvenance: the clock need not be monotonic for it; the direction sectors are those of the four-way comparison, with the axis inversion switch off as in the code.
- SensorCheck.AwaitSensorHealthy: the rounds are counted; how the page is closed is not modelled.
- SensorFaultDevice.SensorFaultMonitor.Update: streak and fault counters are unbounded integers; only the streaks the code saturates are saturated.
- The simulator's image behaviours, native version, restart reasons and saved flash files; a run starts from a formatted flash.
- NUL-terminated descriptor strings; a descriptor is its bytes.
- Sampling, percentiles and sector coverage of the calibration sweep; a sweep is its measured center and range.
- Text formatting and parsing of floats in settings and calibration files.
- Requests that only read or change settings (GET_STATE, GET_FW_INFO, trims, nudge tuning), apart from the trim in the calibration gate.
- Error texts of replies; a refused request is an error with its kind.
- HID and XAC report layouts, the joystick mapping, USB set-up, sensor registers, sockets, threads, the HTTP handshake and the espp libraries.
