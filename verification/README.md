# Verified models of the i.MX Android HALs

This project models the stateful cores of the i.MX hardware abstraction layers in Dafny and
proves what they are for. It has one module per component:

| file | component |
|---|---|
| `Capture.dfy` | the audio capture path: driver periods, `read_buf`, `proc_buf_in`, effects |
| `CaptureOrder.dfy` | the order of the frames when a client reads with effects and without them |
| `Playback.dfy` | arbitration of output streams over shared PCM devices, and the ledger of driver handles |
| `Effects.dfy` | effect slots of an input stream, and the search for auxiliary channels |
| `Samples.dfy` | sample narrowing and mixing, and the in-place channel shuffle for ESAI |
| `HalStateProtocol.dfy` | open, close and send of the Bluetooth HAL by any number of binder threads |
| `LowPower.dfy` | the low-power watchdog of the Bluetooth vendor interface |
| `CommandRouting.dfy` | routing of HCI events between the vendor library's callbacks and the stack |
| `MessageQueue.dfy` | the bounded queue between the context hub HAL and CHRE |
| `PulseHandshake.dfy` | the pulse handshake of the context hub, and its state monitor |
| `Nv12.dfy` | the word-packed conversion of YUYV to NV12 |
| `Strips.dfy` | the 16-line strip loops that feed the JPEG library |
| `ExifSplice.dfy` | the splice of an EXIF block into a JPEG file |
| `CameraTable.dfy` | the two-pass table of logical and physical cameras |
| `Planes.dfy` | row offsets, shared by the image and sample modules |
| `Wrappers.dfy` | types shared by several modules |

How the code is rendered:

- Code that updates structures in place is a class with those fields (`PeriodSource`,
  `CaptureStream`, `InputStream`, `AudioDevice`, `InStream`, `CameraDefinition`, `JpegBuilder`), and pixel and
  sample loops work on arrays. Their methods are proved against a description that does not
  follow the code: one plain stream of frames, a ledger of handles, a list of slots, a per-pixel
  rule, a parser.
- Concurrent code is a transition system over its critical sections, for any number of threads
  and any schedule, with its invariants proved over every run. Beside it stands the class with the
  same code in one thread (`BluetoothHci`, `VendorInterface`, `SynchronousMessageQueue`), whose
  methods are proved to be steps of the transition system, or several steps that nobody interrupts.
- Drivers, effects, the vendor library and the JPEG library are scripts of replies, or parameters,
  with nothing assumed about them that the code does not rely on.
- Most lemmas carry `{:induction false}`: their proofs are written out.

Where the code and its documentation or intent differ, the model follows the code and a lemma or
an example method shows what happens:

- A driver fault in the middle of `read_frames` loses the frames that this call of it has copied
  already (`Capture.FaultBetweenPeriods`). A read fails exactly if too few frames are left before the
  fault, and then loses nothing exactly if the fault meets an empty `read_buf`
  (`Capture.CaptureStream.Reload`).
- Once the last effect is removed, `in_read` takes frames straight from the driver while `read_buf`
  and `proc_buf_in` still hold earlier ones. Frames leave in order exactly if no such read has
  happened while any were waiting (`CaptureOrder.InputStream.InRead`).
- During a call, or while HFP receives, streams cannot be put into standby, so a DIRECT stream can
  meet another stream on its device (`Playback.SharedDeviceInCall`).
- `adev_create_audio_patch` reports success even when it fails, and a flush keeps a handle that is
  not ready.
- `send` calls an interface that another thread may have deleted since `get()` returned it, and no
  test of the state before `get()` would exclude that (`HalStateProtocol.SendMeetsIff`,
  `HalStateProtocol.ClosedWhileSending`).
- The low-power watchdog holds exactly when the vendor library's idle timeout is positive.
- A change of the CHRE state between STOP and START is reported exactly if no other state is sampled
  on the way, so a CHRE that is sampled as UNINIT on its way down is not reported as disconnected.
  Two neighbouring callbacks are equal exactly if an odd number of such hidden changes lies between
  them.
- The semi-planar strip loop delivers complete planes exactly if the height is even. For an odd
  height each chroma plane ends with a row that is not its own: the row eight above the end of the
  plane, if there is more than one strip, and otherwise whatever the fresh buffer held.
- A handle that a write opens between the two sections of a close is never closed
  (`Playback.WriteWhileClosing`).
- The NV12 chroma lines are misplaced when the strides differ by an odd number of words and there
  is more than one chroma line.
- The EXIF length is wrong for blocks of more than 65533 bytes, and for an offset left over from
  an earlier call that does not fit the block.
- A physical camera whose name has 32 or more characters is never found, since names are cut.

`dafny verify dfyconfig.toml` checks the project.

## Model

| member | source | states |
|---|---|---|
| Capture.PeriodSource.Refill | alsa/tinyalsa_hal.cpp:2307-2329 | one driver read fills readBuf with a whole period, or reports the driver's status and leaves it empty |
| Capture.PeriodSource.GetNextBuffer | alsa/tinyalsa_hal.cpp:2290-2335 | offers at most what is wanted from the front of the stream without changing the stream; ENODEV when closed, the driver's status on a fault |
| Capture.PeriodSource.ReleaseBuffer | alsa/tinyalsa_hal.cpp:2337-2348 | removes the released frames, and no others, from what is pending |
| Capture.PeriodSource.ReadFrames | alsa/tinyalsa_hal.cpp:2352-2396 | terminates with exactly the next `frames` frames of the driver's stream in the buffer; or, if the driver faults first, with its status and every earlier frame copied |
| Capture.PeriodSource.Restart | alsa/tinyalsa_hal.cpp:1963-1974 | a restart discards what is pending |
| Capture.PeriodSource.Close | alsa/tinyalsa_hal.cpp:2032-2056 | standby closes the driver and leaves readBuf as it is |
| Capture.CaptureStream.Restart | alsa/tinyalsa_hal.cpp:1963-1974 | both stages start empty |
| Capture.CaptureStream.GrowProcBuf | alsa/tinyalsa_hal.cpp:2421-2440 | realloc keeps the frames that are held |
| Capture.CaptureStream.Reload | alsa/tinyalsa_hal.cpp:2418-2448 | held frames followed by the stream are unchanged by a reload that succeeds; it fails exactly if too few frames are left before the fault, then drops exactly those, and so drops nothing exactly if the fault meets an empty readBuf |
| Capture.CaptureStream.RunEffects | alsa/tinyalsa_hal.cpp:2453-2493 | effects consume from the front; consumed frames followed by held ones are unchanged; the output is what they produced, cut to the room left |
| Capture.CaptureStream.Turn | alsa/tinyalsa_hal.cpp:2416-2494 | one turn of process_frames keeps the whole stream and extends the output; it fails exactly if too few frames are left before the fault, and otherwise the effects take what they want of the frames requested, or of those left over if they are more |
| Capture.CaptureStream.ProcessFrames | alsa/tinyalsa_hal.cpp:2401-2494 | how many calls the effects get, whether the read fails, and how many frames are then consumed, held, left and dropped is what the counts of frames wanted and supplied say; the output is what the effects produced, cut to the room left; consumed, held and available frames are still the original stream, or a driver fault has cut a prefix of it |
| Capture.CaptureStream.Session | alsa/tinyalsa_hal.cpp:2416-2494 | the same over any sequence of reads of any sizes with any effects, up to the first that fails, and which one that is |
| Capture.CaptureStream.LongSession | alsa/tinyalsa_hal.cpp:2416-2494 | over any sequence of reads that go on after faults, frames consumed, then those in procBufIn, are the frames taken from readBuf with the dropped runs cut out, and the counts decide how many of each there are |
| Capture.CaptureStream.NothingLost | alsa/tinyalsa_hal.cpp:2290-2494 | frames consumed, then those in procBufIn, then those in readBuf are what the driver has delivered, without the dropped frames, and with all of them as long as nothing was dropped |
| Capture.ScriptSays | alsa/tinyalsa_hal.cpp:2318-2326 | the stream, the status and the continuation that a list of driver replies stands for |
| Capture.WrittenIsFront | alsa/tinyalsa_hal.cpp:2453-2493 | what all effect calls of one read write to the client is the front of what they produce |
| Capture.CaptureStream.NothingToDropIff | alsa/tinyalsa_hal.cpp:2441-2447 | no frame is left before the next fault exactly when the fault meets an empty readBuf |
| Capture.FaultBetweenPeriods | alsa/tinyalsa_hal.cpp:2441-2447 | a concrete driver whose fault loses two frames that it had delivered |
| CaptureOrder.InputStream.ReadEffects | alsa/tinyalsa_hal.cpp:2549-2550 | a read through the effects keeps the frames in order exactly if they were, and fails exactly if process_frames does |
| CaptureOrder.InputStream.ReadDirect | alsa/tinyalsa_hal.cpp:2553-2554 | a direct read delivers the driver's frames, or its status, and keeps the order exactly if the order held and nothing waits |
| CaptureOrder.InputStream.InRead | alsa/tinyalsa_hal.cpp:2549-2554 | on either way: when it fails, what the client gets, and that frames that can be told apart are in order exactly if no direct read has been made while frames were waiting |
| CaptureOrder.InputStream.Session | alsa/tinyalsa_hal.cpp:2519-2600 | the same over any sequence of reads up to the first fault |
| CaptureOrder.Overtake | alsa/tinyalsa_hal.cpp:2553-2554 | why: frames that leave before those that wait are out of order, for good |
| Playback.AudioDevice.ClosePcm | alsa/tinyalsa_hal.cpp:1036-1039 | the handle enters the ledger of closed handles once and leaves the stream |
| Playback.AudioDevice.OpenChecked | alsa/tinyalsa_hal.cpp:817-837 | a ready handle is stored, one that is not ready is closed again and reported as EIO |
| Playback.AudioDevice.DoOutputStandby | alsa/tinyalsa_hal.cpp:1014-1053 | standby exactly when the guard allows it, with every held handle closed; otherwise nothing changes |
| Playback.AudioDevice.DisplaceNonDirect | alsa/tinyalsa_hal.cpp:739-753 | a DIRECT start puts exactly the non-DIRECT streams on its device into standby |
| Playback.AudioDevice.FindOccupied | alsa/tinyalsa_hal.cpp:755-769 | whether another running stream has the device |
| Playback.AudioDevice.Admit | alsa/tinyalsa_hal.cpp:739-780 | when start_output_stream goes on to open |
| Playback.AudioDevice.StartOutputStream | alsa/tinyalsa_hal.cpp:726-866 | the status in every case, EBUSY exactly for a stream that is not DIRECT during passthrough or on a device in use; a stream that is not started holds nothing; the card found is remembered, except for a BUS |
| Playback.AudioDevice.StartArbitrates | alsa/tinyalsa_hal.cpp:739-769 | once an admitted stream runs, streams are apart exactly unless a refused standby has left another one on its device |
| Playback.AudioDevice.BeginWrite | alsa/tinyalsa_hal.cpp:1574-1585 | a start leaves the new handle and the card with the stream and keeps streams apart unless a DIRECT start could not displace the others, and that condition is exact |
| Playback.AudioDevice.ForceStandby | alsa/tinyalsa_hal.cpp:3661-3665 | a forced standby keeps streams apart and handles conserved |
| Playback.AudioDevice.EndWrite | alsa/tinyalsa_hal.cpp:1659-1663 | a primary stream stands down after more than 100 failed writes in a row, unless refused; every other stream keeps its handles |
| Playback.AudioDevice.BeginClose | alsa/tinyalsa_hal.cpp:3661-3665 | the first section of a close puts the stream into standby, unless refused |
| Playback.AudioDevice.EndClose | alsa/tinyalsa_hal.cpp:3685-3688 | the second section takes the stream off the list and conserves handles exactly if it holds none any more |
| Playback.AudioDevice.OutStandby | alsa/tinyalsa_hal.cpp:1055-1065 | the same for a client's standby, which one sound card refuses |
| Playback.AudioDevice.StartThenStandby | alsa/tinyalsa_hal.cpp:1017-1021 | after a start, a standby leaves the stream running with the same handle exactly if that start opened the card that refuses it, or a call or HFP does |
| Playback.AudioDevice.OutFlush | alsa/tinyalsa_hal.cpp:1160-1195 | closes the old handle once and keeps the new one, ready or not |
| Playback.AudioDevice.FindByIoHandle | alsa/tinyalsa_hal.cpp:3176-3202 | the first stream with the io handle |
| Playback.AudioDevice.FindByPatchHandle | alsa/tinyalsa_hal.cpp:3204-3214 | the first stream with the patch handle |
| Playback.AudioDevice.MoveTo | alsa/tinyalsa_hal.cpp:3319-3324 | moving a stream keeps streams apart exactly unless a running stream that cannot be stopped meets another |
| Playback.AudioDevice.Generate | alsa/tinyalsa_hal.cpp:3267-3270 | a generated patch handle belongs to no stream yet, and a given one that matches its stream to no other |
| Playback.AudioDevice.CreateAudioPatch | alsa/tinyalsa_hal.cpp:3231-3335 | which stream is moved and what handle it gets; all other streams are unchanged; status 0 even when there is no such stream; no two streams share a patch handle other than NONE |
| Playback.AudioDevice.ReleaseAudioPatch | alsa/tinyalsa_hal.cpp:3337-3369 | the first output stream with the patch loses device, patch and, unless refused, its handles; all others are unchanged; after that no stream has the patch; the status is an error exactly if no stream, output or input, has the patch |
| Playback.AudioDevice.OpenOutputStream | alsa/tinyalsa_hal.cpp:3602-3647 | a new stream in standby at the end of the list, with no handle and no patch |
| Playback.AudioDevice.Run | alsa/tinyalsa_hal.cpp:726-1195 | outside calls and HFP, after any sequence of steps up to the first write on a stream that is being closed, two streams on one non-BUS device are both DIRECT, and each handle ever opened was closed once or is held by one stream that is not in standby, and each patch handle names one stream |
| Playback.WriteWhileClosing | alsa/tinyalsa_hal.cpp:3661-3688 | why that step is ruled out: a concrete run in which the handle it opens is lost |
| Playback.SharedDeviceInCall | alsa/tinyalsa_hal.cpp:1017-1022 | a concrete run during a call that puts two streams on one device |
| Effects.RemoveFirstAt | alsa/tinyalsa_hal.cpp:2950-2963 | removal takes out the first slot of the effect and keeps the order of the others |
| Effects.RemoveUndoesAdd | alsa/tinyalsa_hal.cpp:2891-2991 | adding an effect that is not there and removing it restores the slots |
| Effects.SlotsConserved | alsa/tinyalsa_hal.cpp:2891-2991 | over any run an effect has as many slots as it had, plus the adds that succeeded, minus the removals that found it; never more than three slots in all |
| Effects.RichestUnique | alsa/tinyalsa_hal.cpp:2759-2787 | the auxiliary mask that the search may return is unique |
| Effects.PopcountCounts | alsa/tinyalsa_hal.cpp:2781-2784 | the richness of a mask is the number of its set bits |
| Effects.LastErrorIff | alsa/tinyalsa_hal.cpp:2846-2856 | the status of a round is that of the last effect that fails, and 0 exactly if none does |
| Effects.InStream.CountMatches | alsa/tinyalsa_hal.cpp:2762-2780 | the match counter equals the number of effects if and only if every effect supports the configuration |
| Effects.InStream.GetAuxChannels | alsa/tinyalsa_hal.cpp:2745-2792 | the first mask with most bits among the table entries with the main channels that all effects support, or none |
| Effects.InStream.UpdateAuxChannels | alsa/tinyalsa_hal.cpp:2864-2889 | the channels in use are the best ones, or none exactly if an effect that had to be configured failed; which effects are configured, and with what, in both rounds |
| Effects.InStream.ReconfigureChannels | alsa/tinyalsa_hal.cpp:2837-2862 | which effects are configured with what; the status is that of the last effect that fails |
| Effects.InStream.ReadChannelConfigs | alsa/tinyalsa_hal.cpp:2698-2743 | demands a cleared slot, as the assertions do, and fills in the configurations |
| Effects.InStream.AddAudioEffect | alsa/tinyalsa_hal.cpp:2891-2935 | appends a slot with the effect and exactly the configurations that it reports, or returns the first error and changes nothing; if no configuration fails, the channels in use have as many bits as any entry that all old effects and the new one support |
| Effects.InStream.CloseGap | alsa/tinyalsa_hal.cpp:2950-2966 | the in-place loop removes the first slot of the effect |
| Effects.InStream.RemoveAudioEffect | alsa/tinyalsa_hal.cpp:2937-2992 | the first slot is removed even when the descriptor then fails; slots past the count stay cleared |
| Effects.InStream.Perform | alsa/tinyalsa_hal.cpp:2891-2992 | after any sequence of calls the slots are those of the list model, and the channels in use are supported |
| Samples.CastsWrap | alsa/tinyalsa_hal.cpp:253-350 | casts to short and int keep what fits and wrap modulo 2^16 and 2^32 |
| Samples.NarrowKeepsTop | alsa/tinyalsa_hal.cpp:253-322 | narrowing keeps the upper 16 bits of a sample of 16, 24 or 32 bits, whatever lies above 24 |
| Samples.MixNearMean | alsa/tinyalsa_hal.cpp:336-347 | a mix fits 16 bits and is the floored mean, or 1 less exactly when both samples are odd |
| Samples.HalfOf24 | alsa/tinyalsa_hal.cpp:265-276 | the shift up by 8 and down by 17 halves the narrowed 24-bit sample, whatever its high byte is |
| Samples.FusedMixIsStaged | alsa/tinyalsa_hal.cpp:265-312 | mixing while narrowing is narrowing and then mixing |
| Samples.MixOfDuplicate | alsa/tinyalsa_hal.cpp:324-347 | mono to stereo and back clears the low bit of every sample, and nothing else |
| Samples.NarrowToStereo | alsa/tinyalsa_hal.cpp:253-263 | narrowing with duplication equals the two stages |
| Samples.NarrowToMono | alsa/tinyalsa_hal.cpp:265-276 | narrowing with mixing equals the two stages |
| Samples.ConvertRecordData | alsa/tinyalsa_hal.cpp:248-350 | every combination of flags equals the staged conversion; the rest of the destination is unchanged |
| Samples.StagedAt | alsa/tinyalsa_hal.cpp:248-350 | which source sample each converted sample comes from, for every layout |
| Samples.KindOfFlags | alsa/tinyalsa_hal.cpp:253-312 | what the flags select; the 24-bit flag goes before the 32-bit one |
| Samples.EsaiFrames | alsa/tinyalsa_hal.cpp:1707-1741 | the order of the channels in each frame of 6 and of 8, and no change for other counts |
| Samples.ReachedIs | alsa/tinyalsa_hal.cpp:1708-1723 | a byte count below 2^31 reaches half as many samples, one from there up to 2^32 none |
| Samples.ShuffleTwice | alsa/tinyalsa_hal.cpp:1707-1741 | two shuffles are one shuffle by the composed permutation, for any buffer length |
| Samples.ShuffledAt | alsa/tinyalsa_hal.cpp:1707-1741 | where each sample of each frame goes; a trailing partial frame stays |
| Samples.EsaiRestores6 | alsa/tinyalsa_hal.cpp:1707-1721 | four shuffles of 6 channels restore any buffer, two do not |
| Samples.EsaiRestores8 | alsa/tinyalsa_hal.cpp:1722-1741 | two shuffles of 8 channels restore any buffer |
| Samples.ConvertOutputForEsai | alsa/tinyalsa_hal.cpp:1701-1742 | the in-place loop is the frame-by-frame permutation of the bytes that it reaches, and leaves the rest of the buffer alone |
| HalStateProtocol.StepKeepsInv | bluetooth/BluetoothHci.cpp:107-210 | every atomic step of every thread keeps the invariant |
| HalStateProtocol.MutualExclusion | bluetooth/BluetoothHci.cpp:107-184 | in any run of any number of threads at most one is inside Initialize or Shutdown, READY means no vendor interface and ONE_CLIENT means one, creations and deletions alternate, and neither the fatal check nor "No previous Shutdown" is reached |
| HalStateProtocol.StateTellsOwner | bluetooth/BluetoothHci.cpp:107-184 | the state is INITIALIZING or CLOSING exactly while some thread is on its way |
| HalStateProtocol.OwnerAdvances | bluetooth/BluetoothHci.cpp:124-183 | no deadlock: the thread inside can always step and comes nearer to its end |
| HalStateProtocol.OthersWait | bluetooth/BluetoothHci.cpp:107-175 | while one thread is inside, no step of another changes state or interface |
| HalStateProtocol.GetFindsIff | bluetooth/BluetoothHci.cpp:206-210 | get() finds an interface exactly in ONE_CLIENT, or while a thread is at a point of initialize or close where it exists |
| HalStateProtocol.SendMeetsIff | bluetooth/BluetoothHci.cpp:206-210 | in any run, the call of send meets a live interface exactly if get() found one and no other thread has deleted it since |
| HalStateProtocol.ClosedWhileSending | bluetooth/BluetoothHci.cpp:166-210 | from every state with a client, a close by another thread between get() and the call deletes the interface under the sender |
| HalStateProtocol.BluetoothHci.Initialize | bluetooth/BluetoothHci.cpp:98-164 | which answer a client gets; a second client costs the first its session |
| HalStateProtocol.BluetoothHci.Close | bluetooth/BluetoothHci.cpp:166-184 | ends in READY with no interface |
| HalStateProtocol.BluetoothHci.VendorInitialize | bluetooth/vendor_interface.cc:169-181 | a failing Open leaves the interface behind, to be shut down |
| HalStateProtocol.SoloInitialize | bluetooth/BluetoothHci.cpp:98-164 | the atomic steps of initialize without interleaving do what Initialize does |
| HalStateProtocol.SoloClose | bluetooth/BluetoothHci.cpp:166-184 | the same for close |
| LowPower.StepKeepsInv | bluetooth/vendor_interface.cc:322-377 | each critical section keeps the invariant of the trace |
| LowPower.PacketsAreSent | bluetooth/vendor_interface.cc:322-339 | in every run the packets that go out are those that were sent, unchanged and in order |
| LowPower.PacketsGoOutAwake | bluetooth/vendor_interface.cc:322-339 | every packet goes out with wake asserted |
| LowPower.AssertsAreSeparated | bluetooth/vendor_interface.cc:327-336 | two asserts are always separated by a deassert |
| LowPower.ReleaseOnlyWhenIdle | bluetooth/vendor_interface.cc:365-377 | wake is released only by a tick with no packet since the tick before |
| LowPower.IdleTickReleases | bluetooth/vendor_interface.cc:365-377 | the second of two ticks with no packet between them releases wake and turns the timer off |
| LowPower.TwoTicksSleep | bluetooth/vendor_interface.cc:365-377 | two ticks in a row leave wake released and the timer off, from any state |
| LowPower.TrafficKeepsWatch | bluetooth/vendor_interface.cc:322-377 | with a positive timeout asserted wake implies an armed timer, and one that is set to the timeout stays so, over any traffic |
| LowPower.WatchdogHoldsIff | bluetooth/vendor_interface.cc:341-363 | after firmware configuration that holds in every continuation exactly if the idle timeout is positive |
| LowPower.VendorInterface.SendPacket | bluetooth/vendor_interface.cc:322-339 | Send does what the step of the trace model does |
| LowPower.VendorInterface.Tick | bluetooth/vendor_interface.cc:365-377 | so does OnTimeout |
| LowPower.VendorInterface.OnFirmwareConfigured | bluetooth/vendor_interface.cc:341-363 | so does OnFirmwareConfigured, as its two steps in a row |
| CommandRouting.AnswersIff | bluetooth/vendor_interface.cc:78-92 | a Command Complete event answers exactly the opcode in its fourth and fifth byte, the low byte first |
| CommandRouting.OthersAnswerNothing | bluetooth/vendor_interface.cc:78-92 | no other event answers a command |
| CommandRouting.NextEvent | bluetooth/vendor_interface.cc:94-104 | the next event after a command runs its callback with all that it does, or goes to the stack and leaves the callback waiting |
| CommandRouting.NoCallback | bluetooth/vendor_interface.cc:379-393 | the answer to a command without a callback goes to the stack |
| CommandRouting.PerformIsWork | bluetooth/vendor_interface.cc:379-393 | callbacks that run inside one another do what a list of things to do does, with the actions of a called callback in front |
| CommandRouting.HandleKeeps | bluetooth/vendor_interface.cc:379-393 | an incoming event, with all that its callback does in turn, keeps the routing consistent |
| CommandRouting.RunIsRouted | bluetooth/vendor_interface.cc:78-104 | every run from the start of a session, with callbacks that issue commands and receive events, is routed |
| CommandRouting.ExactlyOneConsumer | bluetooth/vendor_interface.cc:379-393 | each incoming event reaches exactly one consumer, next and unchanged |
| CommandRouting.IssuedOnce | bluetooth/vendor_interface.cc:94-104 | commands are numbered in the order of issue |
| CommandRouting.CalledAtMostOnce | bluetooth/vendor_interface.cc:386-389 | a command's callback runs at most once |
| CommandRouting.CallbackRunsIff | bluetooth/vendor_interface.cc:379-393 | an event goes to a command's callback exactly if it is the first match since the issue and no other command was issued in between, so a command issued from inside a callback is not erased |
| CommandRouting.VendorInterface.TransmitCb | bluetooth/vendor_interface.cc:94-104 | the new command takes the place of the one that waits |
| CommandRouting.VendorInterface.HandleIncomingEvent | bluetooth/vendor_interface.cc:379-393 | the re-entrant method does what the routing model does |
| MessageQueue.SynchronousMessageQueue.Emplace | contexthub/imx_chre_connection.h:129-138 | appends if the queue holds fewer than 64, or changes nothing |
| MessageQueue.SynchronousMessageQueue.SendMessage | contexthub/imx_chre_connection.cc:169-175 | is the producer's step of the transition system |
| MessageQueue.SynchronousMessageQueue.WaitForMessage | contexthub/imx_chre_connection.h:150-153 | is the sender's step before front, which is taken only with a message in the queue |
| MessageQueue.SynchronousMessageQueue.Front | contexthub/imx_chre_connection.h:145-148 | is the sender's step that picks the message up; the queue is never empty then |
| MessageQueue.SynchronousMessageQueue.Pop | contexthub/imx_chre_connection.h:140-143 | is the sender's step after write |
| MessageQueue.SynchronousMessageQueue.SenderTurn | contexthub/imx_chre_connection.cc:153-167 | one turn of the sender's loop without interference is four of its steps, and hands over the first message |
| MessageQueue.DeliveredInOrder | contexthub/imx_chre_connection.cc:153-175 | in every interleaving the accepted messages are those written, then the one in flight, then those queued; at most 64 are queued |
| MessageQueue.PopsWhatFrontReturned | contexthub/imx_chre_connection.cc:158-165 | the element popped is the one that front returned and write sent |
| MessageQueue.RefusedChangesNothing | contexthub/imx_chre_connection.cc:169-175 | a message is refused exactly when it is empty, longer than 32768 bytes, or the queue holds 64, and then nothing changes |
| MessageQueue.ProducerOrderKept | contexthub/imx_chre_connection.h:126-159 | each producer's messages are written in the order of its calls |
| MessageQueue.SenderAdvances | contexthub/imx_chre_connection.cc:153-167 | with a message queued the sender cannot stall |
| PulseHandshake.StepKeepsInv | contexthub/imx_chre_connection.h:69-88 | each atomic step of waiter and notifiers keeps the invariant |
| PulseHandshake.ReturnsExactly | contexthub/imx_chre_connection.h:69-80 | the wait ends only by a timeout or because a response was handled after its own reset, and tells which |
| PulseHandshake.NoLostWakeup | contexthub/imx_chre_connection.h:82-88 | while the waiter sleeps, a response that was handled still has a notification ahead that wakes it |
| PulseHandshake.NoResponseBeforeTheWait | contexthub/imx_chre_connection.h:73-79 | a response that precedes the wait is not handled before the mutex is free, so it is not missed |
| PulseHandshake.WokenWaiterReturns | contexthub/imx_chre_connection.h:77-79 | a woken waiter with the flag set returns |
| PulseHandshake.WaiterFallsAsleep | contexthub/imx_chre_connection.h:73-79 | with the mutex free, reset, request and wait are three steps |
| PulseHandshake.HandlerCompletes | contexthub/imx_chre_connection.h:82-88 | with the mutex free, a handler sets the flag and wakes a sleeping waiter in three steps |
| PulseHandshake.SleepEnds | contexthub/imx_chre_connection.h:77-79 | the timeout ends the wait and reports the flag; a spurious wake-up does not, unless the flag is set |
| PulseHandshake.CallbackAt | contexthub/imx_chre_connection.cc:135-148 | which two samples, in the driver's numbers, lead to which callback |
| PulseHandshake.StateMonitor.Watch | contexthub/imx_chre_connection.cc:119-151 | the loop leaves the callbacks of the edges between samples |
| PulseHandshake.ChangeReportedIff | contexthub/imx_chre_connection.cc:135-148 | for any samples, a change from one of STOP and START to the next is reported exactly if both are sampled in a row, and then by the right callback |
| PulseHandshake.EndsIff | contexthub/imx_chre_connection.cc:135-148 | a sample has a callback exactly if it ends a change that is not hidden |
| PulseHandshake.SilentIff | contexthub/imx_chre_connection.cc:135-148 | the monitor is silent over a stretch of samples exactly if every change in it is hidden |
| PulseHandshake.CallbacksEqualIff | contexthub/imx_chre_connection.cc:135-148 | two callbacks are equal exactly if an odd number of changes, hidden or not, lies between them |
| PulseHandshake.NeighboursEqualIff | contexthub/imx_chre_connection.cc:135-148 | two neighbouring callbacks are equal exactly if an odd number of hidden changes lies between them |
| PulseHandshake.ChangeIsReported | contexthub/imx_chre_connection.cc:135-148 | in particular, while only STOP and START are sampled a change of state leaves its callback |
| PulseHandshake.CallbacksAlternate | contexthub/imx_chre_connection.cc:135-148 | and restarts and disconnections alternate |
| PulseHandshake.UninitHidesADisconnection | contexthub/imx_chre_connection.cc:135-148 | the smallest run with one hidden change: two restarts and no disconnection |
| Nv12.PackYBytes | image_process/ImageProcess.cpp:1442-1444 | the bytes of a packed luma word |
| Nv12.PackUVBytes | image_process/ImageProcess.cpp:1451-1452 | the bytes of a packed chroma word, in U, V order |
| Nv12.ConvertLine | image_process/ImageProcess.cpp:1436-1468 | one line writes its luma and, if even, its chroma, and nothing else |
| Nv12.ConvertYUYVtoNV12SP | image_process/ImageProcess.cpp:1421-1471 | every line is converted, and no word outside the lines changes |
| Nv12.UntouchedIff | image_process/ImageProcess.cpp:1436-1468 | the words that stay are those after the end of each line and those behind the chroma lines |
| Nv12.LayoutOf | image_process/ImageProcess.cpp:1421-1434 | any two strides of whole words, the destination's not smaller, have a layout, so the lemmas cover them all |
| Nv12.LumaPixel | image_process/ImageProcess.cpp:1442-1445 | destination byte h * dstStride + x is source byte 2 * (h * srcStride + x) |
| Nv12.ChromaPixel | image_process/ImageProcess.cpp:1451-1456 | chroma byte x of line k lies at dstStride * height + k * dstStride + x and is an odd byte of source line 2k |
| Nv12.ChromaPlacedIff | image_process/ImageProcess.cpp:1467-1468 | the chroma lines lie where NV12 wants them exactly if the stride difference is divisible by 8 or there is at most one of them |
| Strips.JpegSink.WriteRawData | camera/YuvToJpegEncoder.cpp:620-620 | what the JPEG library takes from a strip: the lines within the image and their chroma rows, also that of a single last line; it advances by 16 |
| Strips.InterleaveRestores | camera/YuvToJpegEncoder.cpp:631-647 | interleaving the even and odd bytes restores the input |
| Strips.DeinterleaveSp | camera/YuvToJpegEncoder.cpp:631-647 | the rows hold the even and odd bytes of the strip's part of the chroma plane, and what the buffers hold behind them stays |
| Strips.PointSp | camera/YuvToJpegEncoder.cpp:608-619 | the row pointers of a strip |
| Strips.LastRowIs | camera/YuvToJpegEncoder.cpp:602-621 | the chroma row that follows an odd last line is the row of the strip before it in the same place |
| Strips.CompressSpStrip | camera/YuvToJpegEncoder.cpp:602-621 | one strip extends what the compressor has of the three planes |
| Strips.CompressSp | camera/YuvToJpegEncoder.cpp:579-629 | for any height the loop ends and the valid rows of all strips are exactly the Y, U and V planes, followed, for an odd height only, by one chroma row that is not theirs; for an even height re-interleaving them restores the image |
| Strips.SpLossless | camera/YuvToJpegEncoder.cpp:579-629 | an image of even height can be put together again from the three planes |
| Strips.SpCompleteIff | camera/YuvToJpegEncoder.cpp:579-629 | the compressor gets exactly the chroma planes if and only if the height is even, or there is no chroma |
| Strips.DeinterleavePacked | camera/YuvToJpegEncoder.cpp:727-742 | the same for the packed format |
| Strips.PointPacked | camera/YuvToJpegEncoder.cpp:704-713 | its row pointers |
| Strips.CompressPacked | camera/YuvToJpegEncoder.cpp:674-725 | the loop ends with exactly the three planes, for any height; re-interleaving restores the image |
| ExifSplice.LengthDecodes | camera/JpegBuilder.cpp:382-384 | what the two length bytes say, even where the cast to 16 bits wraps |
| ExifSplice.MarkIs | camera/JpegBuilder.cpp:347-351 | the markers are FF DB and FF DD |
| ExifSplice.FindTables | camera/JpegBuilder.cpp:393-401 | the first DQT or DRI marker, or none |
| ExifSplice.JpegBuilder.InsertEXIFAndJpeg | camera/JpegBuilder.cpp:354-411 | succeeds exactly if the destination is large enough and there is a marker; what every byte of the destination is then; the offset is that of the first call |
| ExifSplice.ExifReadsBackIff | camera/JpegBuilder.cpp:370-387 | the EXIF block reads back exactly if it is at most 65533 bytes long and the offset fits it modulo 65536 |
| ExifSplice.SplicedParsesBackIff | camera/JpegBuilder.cpp:379-408 | with its own offset the file parses as SOI, APP1 with the EXIF block, the coded image from its first table, and EOI exactly if the block is at most 65533 bytes long |
| CameraTable.CopiesFirst | camera/CameraConfigurationParser.cpp:258-279 | a physical name adds the first camera of that name under its owner's type |
| CameraTable.CameraDefinition.ParseAll | camera/CameraConfigurationParser.cpp:230-243 | the first pass: one slot and one empty list per camera |
| CameraTable.CameraDefinition.AddPhysical | camera/CameraConfigurationParser.cpp:257-280 | the search with its push to the table and to the owner's list |
| CameraTable.CameraDefinition.AddPhysicals | camera/CameraConfigurationParser.cpp:248-281 | one owner's entries are consecutive new indices |
| CameraTable.CameraDefinition.ConfigureCameras | camera/CameraConfigurationParser.cpp:230-285 | each basic slot holds what the file says of its camera, cut to 31 characters or defaulted, or nothing if its entry does not parse; behind them stand every owner's entries in order; a camera with fewer than two physical names owns none |
| CameraTable.OwnedInOrder | camera/CameraConfigurationParser.cpp:253-271 | an owner's entries stand in the order of its names, leaving out those that are not found |
| CameraTable.OwnersInOrder | camera/CameraConfigurationParser.cpp:245-282 | the entries of an earlier owner come first |
| CameraTable.OneNameOwnsNothing | camera/CameraConfigurationParser.cpp:247-248 | a camera with one physical name, or none, adds nothing |
| CameraTable.OwnersDisjoint | camera/CameraConfigurationParser.cpp:268-271 | no entry has two owners |
| CameraTable.OwnedIff | camera/CameraConfigurationParser.cpp:268-271 | the owned indices are exactly those appended after slot 23 |
| CameraTable.OwnedIsCopy | camera/CameraConfigurationParser.cpp:258-279 | each appended entry is the first name match with only its camera type replaced |
| CameraTable.CompleteIff | camera/CameraConfigurationParser.cpp:247-281 | an owner gets all its cameras exactly if each name in the file is the cut name of a configured camera that parses, "logical" for one without a name, or empty for one that does not parse; no name of 32 or more characters is found |

## Left out

- ProcessFrames: does not model auxiliary channels (a second output buffer whose extra channels are stripped), the echo reference or the resampler; several effects are combined into one reply, because the code itself relies on the last one only.
- ReadFrames: does not model the resampler branch, which calls get_next_buffer and release_buffer from foreign code.
- Session: requests are finite scripts of effect replies; a run in which effects never produce anything does not end, as in the code.
- CreateAudioPatch: models mixes to devices; the kinds of sources and sinks and patches for input streams are not modelled.
- StartOutputStream: does not model mixer routing, write flags and playback buffers; the card that the lookup finds, whether it is wm8962-audio, and the passthrough status are parameters.
- EndWrite: runs under the mutex of its stream only; that it is one step assumes that a reader of the standby flag under the device mutex sees it before or after, not in between.
- ReadDirect: a fault leaves its status in read_status, which the next read of pending frames reports; the model stops there. Muting, the choice of the branch with a resampler, and the sample conversion are not modelled.
- Generate: patch handles do not wrap, and those of input streams, which share the counter, are not modelled.
- Run: stops at a write on a stream whose close has begun, which a client must not do.
- OutFlush: the card index of a stream that never found a card is not modelled.
- OpenOutputStream: models a successful open; the choice of configuration by format is not modelled.
- GetAuxChannels: whether the device is the main or back microphone is a parameter, since the device masks are not part of this repository.
- ConvertRecordData: the eight loops of the code are three here, with the sample expression of each width; two conversion helpers of the playback path are not modelled.
- ConvertYUYVtoNV12SP: strides are divisible by 4 and the destination stride is not smaller, since other strides give unaligned or overlapping words; the branch for PLATFORM_VERSION_4 is left out.
- CompressSp: the width is even; an odd width leaves the last column without chroma in every row.
- CompressPacked: the width is even; the loops of the packed and the third encoder are the same code and are modelled once.
- WriteRawData: the library also follows the row pointers below the image, which are those of an earlier strip or, for an image of fewer than 16 lines, uninitialised; the model has arbitrary pointers there and follows none of them.
- InsertEXIFAndJpeg: sizes whose sum overflows 32 bits, and an EXIF block left over an offset that lets it run past the destination, are excluded; the marker scan tests its bound before it reads.
- ConfigureCameras: more than 24 cameras, which the code stores out of bounds, are excluded; parsing of the remaining fields, and the device status of a physical camera, are not modelled.
- CallbackRunsIff: event packets too short for an opcode match no command; the code reads past their end.
- NoLostWakeup: there is one waiter, as in the code; progress assumes that the mutex is granted.
- SendMeetsIff: the call on the interface is one step, so a close that runs while Send is inside the interface is not modelled.
- TwoTicksSleep: the timer of the file-descriptor watcher is periodic and zero turns it off; its source is not part of this model.
- Playback of compressed formats and volume: the decoder is foreign code, and the curves are floating-point constants.
- HDMI CEC and connection services, and the EDID reader: they forward values of the kernel driver, whose state is not part of this repository.
- Camera capture sessions and image conversion by GPU, 2D and IPU engines: the work is done by foreign libraries behind ioctl calls.
- Configuration parsing, dump state and key insertion: each field is read and stored on its own, so no property spans two operations.
- Display, power, thermal, vibrator, USB and vehicle HALs: each request becomes one call of a driver or service, and nothing is kept between requests that two of them share.
