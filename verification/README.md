# Selkies client-side components: a verified model

Selkies streams a remote desktop to a browser. Three of its components carry state whose
correctness is a claim over whole runs, and this project models those three in Dafny:

- the **joystick interposer**, a preloaded C library that replaces `open`, `read`, `ioctl` and
  `close` on game devices by a socket per handle (`addons/js-interposer/joystick_interposer.c`);
- the **fake udev library**, which shows four virtual gamepads to programs that look for devices
  through libudev (`addons/fake-udev/fake-libudev-core.c`);
- the **web client's media and control pipeline**
  (`addons/selkies-web-core/selkies-ws-core.js`).

The C and JavaScript code works by changing state step by step, so the operations are classes and
methods over the same fields, loops and branches. Each is proved against a specification function
or predicate, and what the component promises is proved about those as lemmas.
`dafny verify dfyconfig.toml` checks the project.

## Main results

| file | result |
|---|---|
| `EventReader.dfy` | over any number of `read` calls, any `recv`, `poll`, signal and end-of-file behaviour and any work of other threads, the bytes returned, in flight and stashed are exactly the bytes dequeued; a call breaks this if and only if its buffer is too small for one event while a prefix is stashed |
| `TableProtocol.dfy` | in every interleaving of opens, closes, ioctls and reads the handle tables, the kernel's descriptors and the threads' private sockets agree, and no socket leaks |
| `LossRecovery.dfy` | over any mix of redundant, plain and malformed packets the audio receiver plays frames at most once and in order if and only if every frame played without an anchor is new; given packets in order it plays every frame exactly once across losses and timestamp wrap, if and only if each packet reaches back over the loss before it |
| `AudioRed.dfy` | parsing inverts encoding; a truncated encoding is rejected if and only if the cut is in the header or the redundant blocks, and cut later it is the encoding of a shorter primary |
| `PlaybackRing.dfy` | packets and samples are conserved from the port to the speaker, underruns counted exactly |
| `StripeCompositor.dfy` | the two-buffer compositor shows what direct drawing of all stripes up to a frame start would show, which is whole frames if and only if each frame's stripes come together; within a window tight at both ends, JPEG rows draw exactly the stripes nothing newer came before, over any number of ticks |
| `ControlDispatch.dfy` | a script of arrivals and settling inflations alone decides which control messages are handled, in arrival order: all of them, unless plain text whose handler throws arrives behind an inflation, and then exactly which are lost |
| `WorkerDecoder.dfy` | no delta frame is decoded after a missing one |
| `AnnexB.dfy` | the byte scanner finds exactly the first sequence parameter set |
| `HotplugMonitor.dfy` | devices received are the announcements read, in order, each once; the eventfd is armed exactly while one is buffered |
| `RefCounts.dfy` | every counter is what it should be in every reachable state; nothing leaks, nothing is freed twice |
| `DeviceNames.dfy` | all printed names are distinct for any number of pads, lookups invert printing, and the two C libraries agree on them |
| `Enumerate.dfy` | a scan's linked list is exactly the matching nodes in order, whatever the order of the filters |

`Wrappers.dfy` and `Decimal.dfy` hold shared vocabulary, `HandleTable.dfy` the table both
interposer modules use.

## How the outside world enters

The kernel's replies and the other threads' work are an explicit finite script (`EventReader.Tick`,
`HotplugMonitor.Monitor.chunks`), every script is quantified over, and a call that runs off its end
has not returned yet. Interleavings are sequences of steps (`TableProtocol.Step`,
`RefCounts.Op`, `ControlDispatch.Event`, `WorkerDecoder.Message`). The 32-bit and 16-bit numbers
of the JavaScript code are integers with explicit `% 2^32` and `% 2^16`; the digit loop of
`dev_index_after` carries its overflow test and a proof that nothing exceeds `INT_MAX`.
The number of gamepads is a parameter wherever the source has the constant four.

## Where the code falls short of what one would expect

The model keeps the code as it is; each of these is a proved statement.

- `read` takes a handle's stash before its early returns, so a call with a buffer smaller than one
  event drops the stashed bytes: `EventReader.Reader.Read` has the exact condition.
- A handler that throws while it is run from the promise chain rejects the chain. What waits behind it
  is never handled, and after one more gzip frame no control message is. `ControlDispatch.Session` and
  `ControlDispatch.HealthyExactly` say when, `ControlDispatch.SurvivesExactly` which messages are then
  lost, and `ControlDispatch.LosingRun` is a run of four events that loses one.
- Late JPEG stripes on another row put two half-drawn frames on the canvas, although a comment at line
  2139 of `selkies-ws-core.js` says that frames are never mixed: `StripeCompositor.MixedPresentation`;
  `StripeCompositor.StartsAreWholeExactly` says when they are not.
- An audio packet cut inside its primary is played with a clipped frame, and a packet of less than two
  bytes as an empty one: `AudioRed.TruncationExactly`.
- Publishing a handle does not clear the stash of the table entry it reuses, and swap-remove leaves
  the old last entry in place. `HandleTable.FreshStash` says when a new handle starts clean;
  `HandleTable.StaleStashExample` is a close and an open after which two handles hold the same byte, and
  `HandleTable.CleanExactly` says which runs keep every new handle clean: those in which no close
  finds a stash on the last handle of its device.
- Any audio packet that is not a well-formed redundant one clears the anchor
  (`LossRecovery.ClearsExactly`): a malformed one, and a plain one, which the server legally sends while
  redundancy is switched off. After it a repeated packet is played again
  (`LossRecovery.ClearingPacketReplays`), and a repeated plain packet always is
  (`LossRecovery.PlainAlwaysPlays`). `LossRecovery.NeverTwice` has the exact condition for a whole run;
  with packets in increasing order nothing is played twice whatever lies between, but a clearing
  packet leaves the next one unable to replace lost frames (`LossRecovery.LossRecovered`).
- Outside half the timestamp range the comparison is wrong at both ends (`AudioRed.NewerFailsAtHalf`), and
  so is the stripe test one step outside either end of its window (`StripeCompositor.WindowIsTight`).
  Further out the stripe test is right again at some distances: `StripeCompositor.OlderRightExactly`.
- A plain control message is handled ahead of queued ones if it arrives between the moment the last
  inflation is counted off and the callbacks behind it: `ControlDispatch.Dispatcher.OnMessage` has the
  exact condition, which cannot arise between two events of the browser's loop.
- With more than 1000 pads the forged device numbers of joystick and event nodes collide:
  `DeviceNames.MinorsDistinctUpTo1000`.
- A comment at line 2380 of `joystick_interposer.c` says event nodes delegate 'j' ioctls to the
  joystick handler; the code at lines 2297-2306 answers `ENOTTY`. The model follows the code.

## Model

| member | source | states |
|---|---|---|
| HandleTable.Interposer.FindForFd | addons/js-interposer/joystick_interposer.c:529-547 | the nested scan returns the slot and index of a live entry with this fd, or nothing exactly when the fd is negative or no live entry has it |
| HandleTable.Interposer.PublishHandle | addons/js-interposer/joystick_interposer.c:1216-1232 | a handle is added after the live ones unless sixteen are open (EMFILE), and the entry's stale stash is left as it was |
| HandleTable.Interposer.RetireFd | addons/js-interposer/joystick_interposer.c:1469-1485 | swap-remove of the handle, the cached config dropped with the last one, the table untouched for an fd that is not interposed |
| HandleTable.Interposer.StashPartialEvent | addons/js-interposer/joystick_interposer.c:1564-1574 | the bytes become the stash of the handle that now owns the fd; nothing changes if there is none or the length is out of range |
| HandleTable.LookupOwned | addons/js-interposer/joystick_interposer.c:529-547 | an fd live in exactly one place is found there |
| HandleTable.RetireKeepsOthers | addons/js-interposer/joystick_interposer.c:1476-1481 | closing another fd may move a handle to another index but keeps its entry, flags and stash, exactly once |
| HandleTable.PublishKeepsOthers | addons/js-interposer/joystick_interposer.c:1225-1230 | opening another handle leaves every open handle where and as it was |
| HandleTable.SetPartialKeepsOwned | addons/js-interposer/joystick_interposer.c:1571-1572 | writing one handle's stash changes no other handle |
| HandleTable.PutThenTake | addons/js-interposer/joystick_interposer.c:1564-1574 | a stash is what was last put there and is taken once; bytes of no usable length leave it alone |
| HandleTable.ConfiguredExactlyWhileOpen | addons/js-interposer/joystick_interposer.c:1482-1485 | over any run a device keeps its configuration exactly while it has open handles |
| HandleTable.OthersKeepHandle | addons/js-interposer/joystick_interposer.c:1216-1232 | whatever sequence of opens, closes and stash operations other threads perform on other fds, a handle keeps its flags and stash and stays live exactly once on its device |
| HandleTable.FreshStash | addons/js-interposer/joystick_interposer.c:1225-1227 | a new handle starts with an empty stash if and only if the stale entry it reuses has one; what it starts with is that entry's stash, with the flags and configuration of this open |
| HandleTable.ReopenInheritsStash | addons/js-interposer/joystick_interposer.c:1480-1481 | opening after a close on the same device inherits the stash of the handle that was last in the table, which may still be open |
| HandleTable.StaleStashExample | addons/js-interposer/joystick_interposer.c:1225-1227 | a concrete close and reopen after which two open handles hold the same stashed byte |
| HandleTable.StepCleanIff | addons/js-interposer/joystick_interposer.c:1476-1481 | with no stash on the stale entries, a step leaves it so unless it is a close that finds a stash on the last handle of its device, and then not |
| HandleTable.CleanExactly | addons/js-interposer/joystick_interposer.c:1476-1481 | over a whole run of opens, closes and stash operations no stale entry ever holds a stash if and only if no close finds one there |
| HandleTable.EveryOpenStartsClean | addons/js-interposer/joystick_interposer.c:1225-1227 | in such a run every open, wherever it comes, starts with an empty stash |
| EventReader.DeliveriesAreTheStream | addons/js-interposer/joystick_interposer.c:1507-1518 | deliveries of one event each, plus a shorter rest, that concatenate to a stream are exactly the stream's consecutive whole blocks |
| EventReader.InheritedBytesNeverVanish | addons/js-interposer/joystick_interposer.c:1225-1227 | bytes inherited at publish time are never absorbed: the stream is right if and only if there were none |
| EventReader.Reader.Recv | addons/js-interposer/joystick_interposer.c:1742-1754 | a receive with any short count or errno accounts for every byte; a peek takes none |
| EventReader.Reader.DrainEventRemainder | addons/js-interposer/joystick_interposer.c:1519-1553 | ends with a whole event, or with the longer prefix it consumed and end of file or an error as the last reply; no byte lost |
| EventReader.Reader.RecvEventRestBlocking | addons/js-interposer/joystick_interposer.c:1592-1611 | as above for blocking handles; EINTR is reported only while nothing of the event is held |
| EventReader.Reader.TakeStashLocked | addons/js-interposer/joystick_interposer.c:1645-1652 | the stash moves into the call, exactly once |
| EventReader.Reader.Restash | addons/js-interposer/joystick_interposer.c:1762-1764 | the consumed prefix goes back to the handle, wherever other threads have moved it |
| EventReader.Reader.FinishNonblocking | addons/js-interposer/joystick_interposer.c:1697-1709 | the event is delivered whole, or everything held is stashed again and the caller told EAGAIN |
| EventReader.Reader.FinishBlocking | addons/js-interposer/joystick_interposer.c:1773-1792 | the event is delivered whole, or the prefix is stashed and the kernel's end of file or error passed on |
| EventReader.Reader.PeekThenRead | addons/js-interposer/joystick_interposer.c:1738-1772 | nothing is dequeued until a whole event is seen; a consume that still comes up short is drained or stashed |
| EventReader.Reader.Read | addons/js-interposer/joystick_interposer.c:1630-1819 | a call keeps the stream conserved if and only if its buffer holds an event or nothing was stashed; a positive return is one whole event; what it returns is `AnswerTo` the buffer size, the handle's mode, its stash and the replies, the mode being the socket's own or else that of the flags it was opened with; a blocking call answers EAGAIN only if the kernel did, and a non-blocking one without a stash dequeues nothing until it sees a whole event |
| EventReader.CompletedIsReturned | addons/js-interposer/joystick_interposer.c:1592-1611 | a call whose replies complete the event, with nothing between but what its mode waits out (signals once something is held; not-yet within budget), returns it |
| EventReader.ReturnedIsCompleted | addons/js-interposer/joystick_interposer.c:1519-1553 | and it returns a whole event only then |
| EventReader.SeenIsTaken | addons/js-interposer/joystick_interposer.c:1751-1772 | a non-blocking call that sees a whole event goes on to take it |
| EventReader.Reader.ReadMany | addons/js-interposer/joystick_interposer.c:1630-1819 | over whole runs the events returned are the consecutive blocks of the stream and what is held is shorter than an event; from a clean start the bytes returned, in flight and stashed are the bytes dequeued; every call is made unless one is still blocked, and the events are the buffers of the calls that returned one |
| EventReader.Reader.ConservedIffNothingLost | addons/js-interposer/joystick_interposer.c:1669-1676 | the stream is conserved exactly while no undersized read has dropped a stash |
| TableProtocol.PublishHolds | addons/js-interposer/joystick_interposer.c:1225-1227 | publishing adds exactly one descriptor to one device |
| TableProtocol.RetireHolds | addons/js-interposer/joystick_interposer.c:1476-1481 | retiring removes exactly one descriptor, despite the swap |
| TableProtocol.OpenKeepsInv | addons/js-interposer/joystick_interposer.c:1193-1202 | a socket connected outside the lock stays private to its thread and consistent with the kernel |
| TableProtocol.PrivateCloseKeepsInv | addons/js-interposer/joystick_interposer.c:1217-1223 | closing a private socket, after a failed connect or EMFILE, leaks nothing and disturbs nobody |
| TableProtocol.PublishKeepsInv | addons/js-interposer/joystick_interposer.c:1216-1232 | publishing or rejecting keeps the invariant |
| TableProtocol.CloseKeepsInv | addons/js-interposer/joystick_interposer.c:1462-1504 | close keeps it, for interposed and for host descriptors |
| TableProtocol.StepKeepsInv | addons/js-interposer/joystick_interposer.c:1172-1239 | every step of every thread keeps the invariant |
| TableProtocol.RunKeepsInv | addons/js-interposer/joystick_interposer.c:1172-1239 | so does every interleaving |
| TableProtocol.ReachableStatesAreConsistent | addons/js-interposer/joystick_interposer.c:1172-1239 | in every reachable state no fd is twice in the tables, each is kernel-open for that device, at most sixteen per device, the open sockets are exactly the published plus the private ones, and corrections sit on their own device |
| TableProtocol.NoLeakAtRest | addons/js-interposer/joystick_interposer.c:1217-1223 | with no open in progress the open sockets are the published ones, EMFILE included |
| TableProtocol.CorrectionEndsExactly | addons/js-interposer/joystick_interposer.c:2390-2412 | a correction is stored if and only if the fd still belongs to the device it was issued on, else no device changes |
| TableProtocol.OpenThenCloseRestores | addons/js-interposer/joystick_interposer.c:1462-1504 | close undoes open: kernel, threads and everybody's descriptors are as before |
| TableProtocol.RefusedOpenRestores | addons/js-interposer/joystick_interposer.c:1217-1223 | an open refused with EMFILE is undone completely, its socket closed |
| TableProtocol.FailedConnectRestores | addons/js-interposer/joystick_interposer.c:1197-1202 | so is one whose connection fails |
| TableProtocol.HostCloseRemovesIt | addons/js-interposer/joystick_interposer.c:1502-1503 | closing a descriptor that is not interposed removes exactly that one from the kernel |
| TableProtocol.HostOpenThenCloseRestores | addons/js-interposer/joystick_interposer.c:1502-1503 | and undoes its opening |
| TableProtocol.CorrectionIsStored | addons/js-interposer/joystick_interposer.c:2363-2412 | a correction call without a close in between stores its value on the fd's own device if that is a joystick node, and changes nothing else |
| TableProtocol.StashedIsTaken | addons/js-interposer/joystick_interposer.c:1645-1652 | what one read stashes the next one takes, once |
| DeviceNames.DevIndexAfter | addons/js-interposer/joystick_interposer.c:679-691 | the digit loop returns the number after the prefix, -1 exactly on a wrong prefix, no digits, a non-digit or a value above INT_MAX, and never overflows |
| DeviceNames.IndexAfterInverts | addons/js-interposer/joystick_interposer.c:679-691 | it inverts printing for every number up to INT_MAX and gives -1 above |
| DeviceNames.IndexAfterExactly | addons/js-interposer/joystick_interposer.c:675-691 | a path has index n exactly if it is the prefix, zeros if any, and n in decimal, n at most INT_MAX |
| DeviceNames.ForgedMinorOfNode | addons/js-interposer/joystick_interposer.c:695-706 | the forged minor of a pad's device node is its js or event number |
| DeviceNames.OtherMinor | addons/js-interposer/joystick_interposer.c:697-699 | every path that starts like neither kind of node gets 9999 |
| DeviceNames.MinorsDistinctUpTo1000 | addons/js-interposer/joystick_interposer.c:695-706 | the forged numbers of n pads' nodes are pairwise distinct if and only if n is at most 1000 |
| DeviceNames.LibrariesAgree | addons/js-interposer/joystick_interposer.c:98-128 | every device path of the interposer is that node's devnode in the fake udev library, and its socket's name is the one the monitor maps back to that node |
| DeviceNames.SyspathInjective | addons/fake-udev/fake-libudev-core.c:118-201 | for any number of pads all printed syspaths, four per pad, are pairwise distinct |
| DeviceNames.PadPaths | addons/fake-udev/fake-libudev-core.c:130-189 | the sysfs paths of the four pads, digit by digit |
| DeviceNames.SocketNameInjective | addons/fake-udev/fake-libudev-core.c:1148-1164 | so are the socket names |
| DeviceNames.NothingIsTruncated | addons/fake-udev/fake-libudev-core.c:118-201 | no name is cut by the buffer it is printed into while the event numbers fit an int |
| DeviceNames.FindBySyspath | addons/fake-udev/fake-libudev-core.c:211-231 | the table scan inverts the printing of syspaths and finds nothing else |
| DeviceNames.FindBySocketName | addons/fake-udev/fake-libudev-core.c:1148-1164 | the upward scan finds the node a socket name stands for, or none |
| DeviceNames.NodeOfSocketInverts | addons/fake-udev/fake-libudev-core.c:1148-1164 | looking a node's socket name up gives that node |
| DeviceNames.GetParent | addons/fake-udev/fake-libudev-core.c:1451-1495 | the looked-up parent of a device node is its pad's input node, that one's is the pad's USB node, which has none |
| DeviceNames.ReachUsb | addons/fake-udev/fake-libudev-core.c:1451-1495 | following parents reaches the pad's USB node in at most two steps and stops there |
| HotplugMonitor.Monitor.LoadRecord | addons/fake-udev/fake-libudev-core.c:1339-1344 | the record at an offset is read out of the raw bytes, or refused when it is not whole |
| HotplugMonitor.FirstRecord | addons/fake-udev/fake-libudev-core.c:1339-1345 | a record written as the kernel does, with any other mask bits and padding, is read back: its mask, name length and name, and where the next begins |
| HotplugMonitor.AnnouncedIsExpected | addons/fake-udev/fake-libudev-core.c:1347-1370 | a pad's socket created announces its node as added, deleted as removed; any other name, event or a filter other than input announces nothing |
| HotplugMonitor.ReadsWhatHappened | addons/fake-udev/fake-libudev-core.c:1325-1375 | so a buffer of records announces exactly what happened, in order |
| HotplugMonitor.Monitor.HasMatchingRecord | addons/fake-udev/fake-libudev-core.c:1274-1300 | the scan-ahead says yes exactly when the buffer still holds a device, trailing partial records included |
| HotplugMonitor.Monitor.SyncReadable | addons/fake-udev/fake-libudev-core.c:1306-1321 | with working eventfd operations the eventfd ends up armed exactly when the buffer holds a device |
| HotplugMonitor.Monitor.Refill | addons/fake-udev/fake-libudev-core.c:1328-1333 | one kernel read replaces an exhausted buffer without losing a device |
| HotplugMonitor.Monitor.TakeRecord | addons/fake-udev/fake-libudev-core.c:1339-1345 | one record is consumed, and what it announces leaves the remaining devices and nothing else does |
| HotplugMonitor.Monitor.DeviceFor | addons/fake-udev/fake-libudev-core.c:1347-1373 | through both name lookups, a record becomes the device its socket name stands for with the right action, or none |
| HotplugMonitor.Monitor.Dispense | addons/fake-udev/fake-libudev-core.c:1325-1375 | yields the next announced device, nothing skipped, repeated or reordered; without a read exactly when one was buffered; the loop terminates |
| HotplugMonitor.Monitor.Receive | addons/fake-udev/fake-libudev-core.c:1377-1384 | afterwards the eventfd counter is positive if and only if another device is buffered |
| HotplugMonitor.Monitor.ReceiveAll | addons/fake-udev/fake-libudev-core.c:1325-1384 | over any chunking of the kernel's reads the devices received are the filter-map of the whole records, in order, each once |
| HotplugMonitor.Monitor.FilterAddMatchSubsystem | addons/fake-udev/fake-libudev-core.c:1386-1397 | the filter is replaced, cut to its 63 characters, unless none is given |
| HotplugMonitor.WatchPads | addons/fake-udev/fake-libudev-core.c:1325-1397 | however what happened is spread over the kernel's reads, a new monitor receives the pads' nodes with add for each created and remove for each deleted, in order, each once; with a filter other than input it receives nothing |
| RefCounts.UnrefContextKeepsInv | addons/fake-udev/fake-libudev-core.c:304-318 | a context is freed exactly when the caller's last reference goes and nothing is built on it |
| RefCounts.NewObjectKeepsInv | addons/fake-udev/fake-libudev-core.c:390-396 | creating a device, enumerate, monitor or queue keeps every counter equal to references held plus objects built |
| RefCounts.UnrefObjectKeepsInv | addons/fake-udev/fake-libudev-core.c:489-510 | so does releasing one |
| RefCounts.LastUnrefFrees | addons/fake-udev/fake-libudev-core.c:489-510 | an object is freed exactly at its last reference, its context with it exactly when nothing else keeps that, and nothing else is freed |
| RefCounts.RunKeepsInv | addons/fake-udev/fake-libudev-core.c:281-318 | over every run of calls, counters balance, no live object points at a freed context, and what was freed stays freed and is never live again, so nothing is freed twice |
| RefCounts.NothingLeaks | addons/fake-udev/fake-libudev-core.c:304-318 | once the caller holds nothing, everything ever allocated has been freed |
| RefCounts.RefThenUnref | addons/fake-udev/fake-libudev-core.c:477-510 | releasing a reference to an object undoes taking it |
| RefCounts.RefThenUnrefContext | addons/fake-udev/fake-libudev-core.c:293-318 | the same for contexts |
| RefCounts.MadeWithOne | addons/fake-udev/fake-libudev-core.c:390-396 | an object is made with one reference on the context asked for, a parent device on its child's |
| RefCounts.ObjectLedger | addons/fake-udev/fake-libudev-core.c:477-510 | over any run of legal calls an object's counter is what it was plus the references taken less those released; it lives exactly while that is positive and is freed at 0 |
| RefCounts.ContextLedger | addons/fake-udev/fake-libudev-core.c:293-318 | a context's counter is the references taken less those released plus the objects on it, and it lives exactly while that is positive |
| RefCounts.Library.UdevNew | addons/fake-udev/fake-libudev-core.c:281-291 | a fresh context with one reference |
| RefCounts.Library.UdevRef | addons/fake-udev/fake-libudev-core.c:293-302 | one more reference, on that context only |
| RefCounts.Library.UdevUnref | addons/fake-udev/fake-libudev-core.c:304-318 | one less, freed and reported NULL exactly at zero |
| RefCounts.Library.NewOn | addons/fake-udev/fake-libudev-core.c:781-806 | a new object takes its own reference to its context |
| RefCounts.Library.RefOf | addons/fake-udev/fake-libudev-core.c:477-487 | one more reference to an object, its context untouched |
| RefCounts.Library.UnrefOf | addons/fake-udev/fake-libudev-core.c:819-842 | one less; the last one frees the object and gives its context reference back |
| Enumerate.GetPropertyValue | addons/fake-udev/fake-libudev-core.c:593-620 | the table walk returns the value of the first entry with the key, or none |
| Enumerate.InputProperties | addons/fake-udev/fake-libudev-core.c:141-182 | every node but the USB parents is an input device and a joystick |
| Enumerate.EventProperties | addons/fake-udev/fake-libudev-core.c:177-182 | event nodes alone are gamepads and event joysticks |
| Enumerate.NamingProperties | addons/fake-udev/fake-libudev-core.c:141-182 | device nodes name themselves, input parents their path below /sys |
| Enumerate.NoOtherProperties | addons/fake-udev/fake-libudev-core.c:141-182 | and no node has another property |
| Enumerate.NamesDistinct | addons/fake-udev/fake-libudev-core.c:141-182 | no property table names a property twice |
| Enumerate.AnyEntryIsTheValue | addons/fake-udev/fake-libudev-core.c:1039-1048 | looking for any entry that answers a filter is the same as looking the key up |
| Enumerate.MatchesAllFilters | addons/fake-udev/fake-libudev-core.c:1014-1061 | a node is accepted if and only if for every filter its property value is present and equals the filter's value when one is given |
| Enumerate.FilterOrderIrrelevant | addons/fake-udev/fake-libudev-core.c:1037-1060 | the nodes found depend only on the set of filters, not on order or repetition |
| Enumerate.FoundIsSelected | addons/fake-udev/fake-libudev-core.c:1089-1123 | a scan finds exactly the selected nodes, each once, pad by pad, js before event before parent, the parent only by pattern |
| Enumerate.DevnameSelectsOne | addons/fake-udev/fake-libudev-core.c:1064-1135 | a generic scan filtered by a device's DEVNAME finds that device and nothing else |
| Enumerate.GenericScan | addons/fake-udev/fake-libudev-core.c:1094-1113 | filters that all device nodes satisfy list every pad's joystick node and then its event node, pad after pad |
| Enumerate.JoystickScan | addons/fake-udev/fake-libudev-core.c:1064-1135 | which is what a scan for joysticks lists |
| Enumerate.NameSelectsOne | addons/fake-udev/fake-libudev-core.c:1097-1117 | asking for a node by its exact name finds it and nothing else |
| Enumerate.ResultList.Add | addons/fake-udev/fake-libudev-core.c:978-1011 | the head and tail pointers keep a well-formed list with the name appended; empty names are ignored |
| Enumerate.Enumerator.AddMatchSysname | addons/fake-udev/fake-libudev-core.c:859-869 | the pattern is replaced, cut to its 63 characters |
| Enumerate.Enumerator.AddMatchProperty | addons/fake-udev/fake-libudev-core.c:872-920 | the filter goes in front of the linked list |
| Enumerate.Enumerator.ScanDevices | addons/fake-udev/fake-libudev-core.c:1064-1135 | the linked list built is exactly the syspaths of the nodes found, in order, and empty without the "input" filter |
| AudioRed.NewerMeansLater | addons/selkies-web-core/selkies-ws-core.js:62-66 | on wrapped timestamps less than 2^31 apart the comparison means strictly later |
| AudioRed.NewerFailsAtHalf | addons/selkies-web-core/selkies-ws-core.js:62-66 | 2^31 later does not compare as later, and 2^31 + 1 earlier does |
| AudioRed.ReadHeaders | addons/selkies-web-core/selkies-ws-core.js:75-82 | the header loop reads every block's 14-bit offset and 10-bit length |
| AudioRed.CutBlocks | addons/selkies-web-core/selkies-ws-core.js:85-97 | blocks are cut at the declared lengths, or the packet refused when they do not fit |
| AudioRed.ParseRed | addons/selkies-web-core/selkies-ws-core.js:71-97 | the blocks of a packet exactly when its fixed part is present and its lengths fit |
| AudioRed.AudioReceiver.ExtractOpusFrames | addons/selkies-web-core/selkies-ws-core.js:67-110 | frames played and anchor kept for plain, malformed, first and later packets are those of the specification the lemmas below speak of |
| AudioRed.ParseInvertsEncode | addons/selkies-web-core/selkies-ws-core.js:74-97 | parsing a well-formed encoding returns exactly the blocks that were sent |
| AudioRed.PacketExample | addons/selkies-web-core/selkies-ws-core.js:56-60 | a packet of thirteen bytes and its two blocks |
| AudioRed.TruncationExactly | addons/selkies-web-core/selkies-ws-core.js:70-91 | an encoding cut short yields no frame and no anchor exactly if the cut is in the header or the redundant blocks; cut later it is the encoding with that much less of the primary, and cut before the count it plays one empty frame |
| LossRecovery.WrapRefines | addons/selkies-web-core/selkies-ws-core.js:103-108 | the 32-bit acceptance loop makes the choices of one over unbounded timestamps |
| LossRecovery.ClearsExactly | addons/selkies-web-core/selkies-ws-core.js:70-91 | the anchor is forgotten exactly by packets that are not well-formed redundant ones, plain and malformed alike |
| LossRecovery.RunRefines | addons/selkies-web-core/selkies-ws-core.js:67-110 | over whole runs mixing redundant, plain and malformed packets the 32-bit receiver plays what one on unbounded timestamps plays |
| LossRecovery.NeverTwice | addons/selkies-web-core/selkies-ws-core.js:56-60 | over any such run, whatever is lost, repeated or reordered, the times played increase strictly, so no frame comes twice, if and only if each plain frame and each primary that meets no anchor is later than all played before; the same for the frames of redundant packets alone |
| LossRecovery.CountedIsPlayed | addons/selkies-web-core/selkies-ws-core.js:67-110 | with plain frames counted, the times compared there are those of everything played |
| LossRecovery.OnceAnchored | addons/selkies-web-core/selkies-ws-core.js:103-108 | once anchored and while only redundant packets come, nothing is played twice |
| LossRecovery.PlainAlwaysPlays | addons/selkies-web-core/selkies-ws-core.js:70-70 | a repeated plain packet plays again, whatever came between |
| LossRecovery.ClearingPacketReplays | addons/selkies-web-core/selkies-ws-core.js:70-102 | any packet that is not a well-formed redundant one, plain or malformed, between two copies of a packet makes its primary play twice |
| LossRecovery.PacketCarries | addons/selkies-web-core/selkies-ws-core.js:53-60 | a sender's packet carries, on the wire, the current frame and the ones before it with their times, or the frame alone when it is sent plain |
| LossRecovery.OnePacket | addons/selkies-web-core/selkies-ws-core.js:103-109 | a packet received after frame q adds exactly the frames it carries that are newer than q if an anchor is left, and its own frame only if not |
| LossRecovery.LossRecovered | addons/selkies-web-core/selkies-ws-core.js:53-110 | a fresh receiver given packets in increasing order, with plain and malformed ones among them, plays frames in ascending order, none twice; it plays every frame from the first packet's to the last one's, across wrap, if and only if each packet reaches back over the loss before it, which needs redundancy and an anchor |
| LossRecovery.SentPacketsDeliver | addons/selkies-web-core/selkies-ws-core.js:53-60 | the packets the sender encodes are such packets |
| LossRecovery.AnchorOnPrimary | addons/selkies-web-core/selkies-ws-core.js:98-102 | the first packet plays its own frame only and anchors there if it is a redundant one |
| PlaybackRing.InterleavingInverts | addons/selkies-web-core/selkies-ws-core.js:4028-4031 | de-interleaving loses nothing: the frames of whole-frame packets, re-interleaved, are their samples in order |
| PlaybackRing.ShortFrameRepeats | addons/selkies-web-core/selkies-ws-core.js:4061-4063 | channels without a sample of their own hear channel 0's |
| PlaybackRing.FrameCount | addons/selkies-web-core/selkies-ws-core.js:4046-4063 | a packet lasts as many frames as its samples fill, a last partial one counted |
| PlaybackRing.AudioFrameProcessor.Push | addons/selkies-web-core/selkies-ws-core.js:3999-4005 | a full ring drops exactly its oldest packet, never holds more than eight, and counts the drop |
| PlaybackRing.WriteFrame | addons/selkies-web-core/selkies-ws-core.js:4061-4063 | each channel gets its sample, or channel 0's once the packet has ended |
| PlaybackRing.AudioFrameProcessor.PlayFrame | addons/selkies-web-core/selkies-ws-core.js:4046-4067 | one output frame is the next frame of the stream on every channel, other frames untouched, or there is none left |
| PlaybackRing.AudioFrameProcessor.PlayFrames | addons/selkies-web-core/selkies-ws-core.js:4046-4067 | the sample loop plays frames up to the quantum or the end of what is available |
| PlaybackRing.AudioFrameProcessor.Process | addons/selkies-web-core/selkies-ws-core.js:4023-4076 | a quantum is the next available frames followed by silence, and underrunSamples grows by exactly the silent positions |
| PlaybackRing.AudioFrameProcessor.HeardIsWhatSurvived | addons/selkies-web-core/selkies-ws-core.js:3979-4077 | at any time what was heard and what is left are, re-interleaved, exactly the samples of the packets not dropped |
| PlaybackRing.AudioFrameProcessor.SurvivorsInOrder | addons/selkies-web-core/selkies-ws-core.js:3999-4005 | the packets played or still queued are the packets pushed, in order, without exactly those counted as dropped |
| PlaybackRing.ZeroFill | addons/selkies-web-core/selkies-ws-core.js:4032-4034 | silence from an index on, nothing before it touched |
| StripeCompositor.BlitLater | addons/selkies-web-core/selkies-ws-core.js:3798-3799 | copying a later picture over an earlier one shows the later one |
| StripeCompositor.PictureShowsLast | addons/selkies-web-core/selkies-ws-core.js:3803-3804 | the rows painted are those some stripe covers, and each shows the last stripe that does |
| StripeCompositor.NotedAt | addons/selkies-web-core/selkies-ws-core.js:3847-3853 | a stripe without an id counts for the frame in progress and never starts one |
| StripeCompositor.StartSeparatesFrames | addons/selkies-web-core/selkies-ws-core.js:3795-3801 | a change of the wrapped frame id is a boundary with no true frame on both sides |
| StripeCompositor.StartsAreWholeExactly | addons/selkies-web-core/selkies-ws-core.js:2139-2143 | what is presented at frame starts is always a whole number of true frames if and only if each frame's stripes come together |
| StripeCompositor.MixedPresentation | addons/selkies-web-core/selkies-ws-core.js:3846-3855 | four fresh JPEG stripes of two frames on two rows after which the canvas shows half of each |
| StripeCompositor.Compositor.Blit | addons/selkies-web-core/selkies-ws-core.js:3798-3799 | the visible canvas becomes the direct drawing of every stripe so far |
| StripeCompositor.Compositor.DrawStripe | addons/selkies-web-core/selkies-ws-core.js:3847-3855 | a stripe of a new frame presents the finished frame first; the back buffer is always the direct drawing of all stripes |
| StripeCompositor.Compositor.PaintStriped | addons/selkies-web-core/selkies-ws-core.js:3787-3819 | after a tick the visible canvas is the direct drawing of all stripes up to the last frame start, of everything after an idle tick, each row showing the last of them that covers it, and every frame is closed once |
| StripeCompositor.Compositor.PaintJpeg | addons/selkies-web-core/selkies-ws-core.js:3821-3881 | the same for JPEG stripes, of which only the fresh ones are drawn and noted, every image closed once |
| StripeCompositor.Compositor.PaintSegment | addons/selkies-web-core/selkies-ws-core.js:3830-3861 | one segment is skipped if stale, else drawn and noted on its row, and released either way |
| StripeCompositor.RowsAreIndependent | addons/selkies-web-core/selkies-ws-core.js:3835-3844 | what a row draws depends on that row's stripes alone |
| StripeCompositor.OlderExactly | addons/selkies-web-core/selkies-ws-core.js:3838-3839 | at most 256 behind and at most 65279 ahead, the 16-bit test drops the older stripes and only them |
| StripeCompositor.WindowIsTight | addons/selkies-web-core/selkies-ws-core.js:2164-2168 | one further behind is drawn over newer content, one further ahead is dropped |
| StripeCompositor.OlderRightExactly | addons/selkies-web-core/selkies-ws-core.js:3838-3839 | for every pair of true frame numbers, exactly when the 16-bit test decides correctly |
| StripeCompositor.FreshIsUpToDate | addons/selkies-web-core/selkies-ws-core.js:3829-3869 | in a queue of any rows whose stripes stay in the window, exactly those are drawn that nothing newer came before on their row, and each row's last id is its newest |
| StripeCompositor.RowTopIsMax | addons/selkies-web-core/selkies-ws-core.js:3857-3859 | the newest of a row is the largest of what it showed before and of all that arrived for it, drawn or dropped |
| StripeCompositor.DroppedIsBehind | addons/selkies-web-core/selkies-ws-core.js:3830-3843 | a dropped stripe is strictly behind what its row showed before, or behind one drawn earlier on it |
| StripeCompositor.RowStaysFresh | addons/selkies-web-core/selkies-ws-core.js:3829-3869 | so over whole queues, rows drawn on before or not, the frames a row draws never go back, no newer one is dropped, and every row ends on the newest that arrived |
| StripeCompositor.FreshAppend | addons/selkies-web-core/selkies-ws-core.js:3829-3869 | painting queue after queue decides as painting them all at once |
| StripeCompositor.Compositor.PaintJpegTicks | addons/selkies-web-core/selkies-ws-core.js:3820-3881 | any number of ticks draw, note and release what one tick with everything queued would have |
| StripeCompositor.Compositor.PaintJpegInWindow | addons/selkies-web-core/selkies-ws-core.js:3820-3881 | over any number of ticks within the window the canvas receives exactly the stripes nothing newer came before on their row |
| WorkerDecoder.EveryChunkIsInARun | addons/selkies-web-core/selkies-ws-core.js:915-928 | what the decoder is given splits into runs that start with a key frame and miss no received chunk |
| WorkerDecoder.LogSnoc | addons/selkies-web-core/selkies-ws-core.js:915-928 | a key, or a delta right after the chunk before it, keeps decoding in order |
| WorkerDecoder.VideoWorker.OnConfig | addons/selkies-web-core/selkies-ws-core.js:894-912 | a new configuration demands a key frame, a failed one leaves no decoder |
| WorkerDecoder.VideoWorker.OnChunk | addons/selkies-web-core/selkies-ws-core.js:914-928 | a chunk is decoded exactly when the decoder is configured and it is a key, or a delta with nothing missing before it and room in the queue; a throw closes the decoder |
| WorkerDecoder.VideoWorker.Handle | addons/selkies-web-core/selkies-ws-core.js:891-931 | over any script of configs, closes, errors and chunks the two flags decide as looking back at the last call of decode() would: a delta passes only right after the chunk before it was decoded |
| WorkerDecoder.AllCounted | addons/selkies-web-core/selkies-ws-core.js:891-931 | every chunk and configuration of a script is counted, and what was decoded stays decoded |
| WorkerDecoder.ConfiguredExactly | addons/selkies-web-core/selkies-ws-core.js:880-928 | a decoder is there exactly if one was accepted last and no close, error, browser closing, refused configuration or throwing decode has come since |
| WorkerDecoder.NothingDecodedWithout | addons/selkies-web-core/selkies-ws-core.js:916-916 | without one nothing is decoded |
| WorkerDecoder.FromKeyOnAllDecoded | addons/selkies-web-core/selkies-ws-core.js:917-926 | while decoding keeps up and works every chunk from a key on is decoded |
| ControlDispatch.HealthyExactly | addons/selkies-web-core/selkies-ws-core.js:5523-5547 | a script stays healthy if and only if no plain message whose handler throws arrives while an inflation is outstanding, and then every message gets its turn |
| ControlDispatch.AfterBreak | addons/selkies-web-core/selkies-ws-core.js:5525-5544 | after the first such arrival, the inflations settled and the gzip frames arrived since then say how far the run is |
| ControlDispatch.SurvivesExactly | addons/selkies-web-core/selkies-ws-core.js:5525-5547 | a message after it gets its turn if and only if it is plain, the inflations outstanding then have settled, and no gzip frame has come since |
| ControlDispatch.WedgedForever | addons/selkies-web-core/selkies-ws-core.js:5543-5544 | with a gzip frame counted on a rejected chain no later message is ever handled |
| ControlDispatch.LosingRun | addons/selkies-web-core/selkies-ws-core.js:5518-5548 | gzip, throwing text, text, settle: the last text is lost |
| ControlDispatch.Dispatcher.OnMessage | addons/selkies-web-core/selkies-ws-core.js:5518-5548 | arrival order survives a message that is gzip, or meets a counted inflation, or finds no callback waiting; on a live chain and for a message not seen before only then; what is put on a rejected chain, or behind a message that will throw, is lost; the phase moves as the script says |
| ControlDispatch.Dispatcher.RunPlainHead | addons/selkies-web-core/selkies-ws-core.js:5544-5544 | a deferred plain message is handled in its turn, and if its handler throws exactly the callbacks behind it are skipped |
| ControlDispatch.Dispatcher.OnInflationSettled | addons/selkies-web-core/selkies-ws-core.js:5525-5529 | a settled inflation is handled or skipped in its turn and counted off |
| ControlDispatch.Dispatcher.DrainMicrotasks | addons/selkies-web-core/selkies-ws-core.js:5544-5544 | after the microtasks the chain is empty, with nothing pending unless it was rejected, or its head is a gzip frame in flight; a message that will throw with nothing ahead of it has thrown |
| ControlDispatch.Dispatcher.Run | addons/selkies-web-core/selkies-ws-core.js:4421-4432 | the promise chain refines the script's counters: arrivals, phase, survivors and lost messages are the script's, what is handled is a prefix of the survivors in arrival order, and all of them once the chain is empty |
| ControlDispatch.Session | addons/selkies-web-core/selkies-ws-core.js:4421-4432 | from a fresh dispatcher: with nothing thrown and every inflation settled all arrivals have been handled in order; with the chain empty it is rejected if and only if the script breaks, and what was handled and lost is exactly what the script says |
| ControlDispatch.QueueingIsOrdered | addons/selkies-web-core/selkies-ws-core.js:5523-5544 | putting a message at the end of the chain keeps and needs arrival order |
| ControlDispatch.GzipCountHead | addons/selkies-web-core/selkies-ws-core.js:5523-5528 | counting off the chain's head keeps the pending count equal to the gzip frames left |
| ControlDispatch.OvertakingShows | addons/selkies-web-core/selkies-ws-core.js:5543-5547 | handling a plain message at once keeps arrival order when nothing waits, and for a new message only then |
| AnnexB.ParseAvcCodec | addons/selkies-web-core/selkies-ws-core.js:1310-1347 | the scanner returns the codec of the first 00 00 01 followed by a type-7 header, for every byte string; jumping past start codes of either length misses none |
| AnnexB.StreamCodec | addons/selkies-web-core/selkies-ws-core.js:1310-1347 | on a stream framed from NAL units free of start codes, with any mix of start code lengths, the answer is the first parameter set's profile, constraint and level bytes; one cut short is read on into what follows it |
| AnnexB.StreamWithoutSps | addons/selkies-web-core/selkies-ws-core.js:1310-1347 | no parameter set is seen exactly when no unit of the stream is one |
| AnnexB.UnitShows | addons/selkies-web-core/selkies-ws-core.js:1317-1326 | in a framed unit followed by others, the unit's own header is the only one the bytes can show |
| AnnexB.CodecInjective | addons/selkies-web-core/selkies-ws-core.js:1312-1339 | codec strings are equal exactly when the three bytes they were made from are |
| AnnexB.CodecReads | addons/selkies-web-core/selkies-ws-core.js:1312-1339 | the codec string is "avc1." and the three bytes in hexadecimal, high digit first |
| AnnexB.CodecExample | addons/selkies-web-core/selkies-ws-core.js:1335-1339 | the bytes 42, E0, 1F give "avc1.42E01F" |
| AnnexB.SpsHeaders | addons/selkies-web-core/selkies-ws-core.js:1328-1331 | the parameter set headers are 07, 27, 47 and 67 |

## Left out

- Two threads reading one interposed fd, and descriptors closed behind the interposer's back: the interposer does not support them either.
- Real sockets, epoll, inotify, eventfd, clocks, logging and `dlsym`: only their replies appear, as scripts and parameters.
- Event sizes are those of LP64 Linux (8 and 24 bytes).
- Connecting and its retries, the config a server sends, and the ioctl answers other than the correction write-back.
- HotplugMonitor.Monitor.Dispense: allocation failure while building a device, which loses that record, and a filter changed between two receives, after which no resync happens until the next one.
- RefCounts.Library.NewOn: addresses are never reused, counters are unbounded, and releasing a reference the caller does not hold is outside the model.
- Enumerate.Enumerator.ScanDevices: freeing the previous result list and allocation failure are not modelled, and fnmatch is any relation between strings.
- Lookups by subsystem and sysname, sysattrs, and the libudev functions with fixed answers.
- PlaybackRing.AudioFrameProcessor.Process: level metering and the statistics message; output buffers arrive zeroed, as the Web Audio API specifies, which matters only for empty packets.
- StripeCompositor.Compositor.PaintJpeg: exceptions from drawing, a canvas resized or replaced between ticks, and switching encoders.
- StripeCompositor rows: a picture maps rows to pixel values; horizontal extent is not modelled.
- WorkerDecoder.VideoWorker.OnChunk: throttling of key frame requests and presentation of decoded frames.
- ControlDispatch.Dispatcher.Run: media frames (always handled at once), the `_gz,1` switch and the send-side compression chain.
- The ladder of decoder fallbacks across reloads, which only counts failures up to an absorbing state.
- Other interposed calls, the WebRTC web client and the Python server, none of which is part of this model.
