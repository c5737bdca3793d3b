# Monolinux C library: verified model

A Dafny model of the concurrent and protocol components of the Monolinux C library, with proofs of
what they promise over every input and every run. Each component has a value-level specification,
proofs about it, and an imperative form (a class or a method on an array) proved to refine it.

| component | files |
|---|---|
| Timers: delta list, expiry filtering, wall-clock bounds | `Countdown`, `TimerSystem`, `Splice`, `TimerHandler`, `TimerRuns` |
| Message queue, worker pool | `QueueMonitor`, `MessageQueue`, `WorkerPool` |
| Bus and reference-counted messages | `Bus`, `Messages` |
| Internet checksum | `Inet` |
| DHCP client: options, packets, state machine | `DhcpOptions`, `DhcpPacket`, `DhcpSpec`, `DhcpClient` |
| Shell: tokenizer, line, completion, history | `ShellTokens`, `ShellParser`, `ShellLine`, `ShellCompletion`, `HistorySpec`, `ShellHistory` |
| 1-wire temperature transactions | `OneWireSpec`, `OneWireBytes`, `OneWire` |
| Shared: optional values, C strings | `Wrappers`, `CStrings` |

## Results

**Timers.** Each timer is an independent countdown. The linked list that stores only differences between
timeouts refines a map from timer to countdown: starting, stopping and inserting leave every other
timer's time unchanged, and a tick, which decrements only the head, advances all of them, fires exactly
the timers on their last tick, once each, and re-arms periodic ones. This holds event by event and over
every run in which threads and the tick take the mutex in turn. A started timer posts on exactly the
ticks a closed formula gives, in every interleaving in which timers are armed while inactive. Two
overlapping starts of one timer break that rule: arming an active timer links the list into a cycle. The
two counters of a timer identify exactly the messages with no stop or start after the tick that posted
them. A timer never fires early if and only if its timeout is at most UINT_MAX - 99 ms: above that the
ceiling division wraps to zero ticks.

**Message passing.** For any number of threads, with barging and spurious wakeups, no wakeup is lost: a
blocked thread that could proceed always has a woken peer that will. Getters and putters can block each
other for good exactly on a queue of length 0. Messages are delivered once each, in order, and each
thread puts exactly the messages it was called with, however often it blocks; the jobs that a pool has
run, once it is idle, are exactly those spawned. In every interleaving in which subscriptions are made
only while the bus is quiet, a broadcast is put on the queue of each subscription to the identifier its
message was allocated with once, in order, the count in a message equals the references to it wherever
they are, and a message is released once, when the last one goes. Quiet is exactly what is needed: no
broadcast of the identifier subscribed to is under way, and when that identifier is new none at all,
because the elements are then reallocated and sorted under the pointer that a broadcast keeps. A run in
which that happens loses a delivery and never releases the message.

**Checksum.** The accumulator computes the checksum of RFC 1071 for all buffers of a size exactly up to
131074 bytes, and a stored checksum verifies.

**DHCP.** The option loop accepts exactly the encoded option lists and keeps last occurrences. Over
every run, all lease fields come from the last OFFER, and the interface is configured only with those,
after an OFFER and a REQUEST since the last reset. The address configured is the one requested exactly
when no OFFER came after that REQUEST or the last one that did carries the same address; one that comes
before the ACK is configured without having been requested. A client with a lease reads the UDP socket,
where the ACK to a renewal binds it again. The client always has armed the timer it waits on, provided
all lease times are 2 to 2^31 - 1 seconds. With any other lease time a bound client never leaves BOUND
again, except when the renewal timer is still armed from a lease whose UDP socket failed and the renewal
interval is negative, so that setting the timer is refused; this boundary is exact.

**Shell.** The in-place tokenizer refines a pure one, which fails exactly on a blank line, an odd number
of unescaped quotes or more than 32 arguments. It reads back every list of arguments, with or without
quotes, exactly if the white space between them starts with a space. Tab completion yields the longest
common prefix, or lists all matches when they differ right away. The history is the last 64 commands
with consecutive repeats collapsed. DOWN outside the history leaves the line alone exactly unless Enter
has led there; then it shows a line that was given up.

**1-wire.** Every request is answered at most once, and all but the active one have been answered; a
request whose reply never comes stays active and later ones are answered busy. A temperature is answered
only after that request's own conversion and timeout. Two replies break this, and only these: a failed
status for the conversion while its timer is pending, and a failed status with sequence number
0xffffffff. A reply is one of these two exactly when a continuation without another one can put a
response on no queue. A reply with another sequence number than the one waited for changes nothing.

## Model

| member | source | states |
|---|---|---|
| `Countdown.DivCeilRoundsUp` | src/ml_timer.c:36 | the 32-bit ceiling division rounds up by less than a tick exactly when the sum does not wrap; otherwise it is 0 |
| `Countdown.Schedule` | src/ml_timer.c:107-136 | the ticks left of a timer left alone are a closed formula of the ticks passed |
| `Countdown.PostsExactlyOnSchedule` | src/ml_timer.c:107-136 | a started timer posts on tick DivCeil(initial)+1 and every DivCeil(repeat) ticks after, and on no other |
| `Countdown.StoppedIsSilent` | src/ml_timer.c:217-223 | a stopped timer posts nothing until it is armed again |
| `Countdown.ValidExactlySinceLastStop` | src/ml_timer.c:217-242 | over every run with messages taken once each in order, 0 <= toIgnore <= outstanding = in flight, and toIgnore = 0 exactly when the next message was posted since the latest stop or start |
| `Countdown.ValidExactlyUnlessStopped` | src/ml_timer.c:217-242 | told by the events alone: the counters call the next message valid if and only if no stop came after the tick that posted it |
| `Countdown.NeverEarlyExactly` | src/ml_timer.c:197-215 | with ticks at least 100 ms apart no expiry comes before `initial` ms, if and only if `initial` <= UINT_MAX - 99 |
| `Countdown.FiresInTime` | src/ml_timer.c:152-166 | with ticks exactly 100 ms apart and none missed the first expiry comes in under `initial` + 200 ms, for every 32-bit timeout |
| `TimerSystem.TimersAreIndependent` | src/ml_timer.c:107-242 | in every interleaving of all timers' events that arms only inactive timers each timer does what it would do alone |
| `TimerSystem.OverlappingStartsBreakDiscipline` | src/ml_timer.c:197-215 | starts of a timer one after the other arm it while inactive, two interleaved ones do not |
| `TimerSystem.StartedTimerKeepsSchedule` | src/ml_timer.c:107-215 | the ticks left of a started timer follow its schedule whatever is done to other timers |
| `TimerSystem.StartedTimerPostsOnSchedule` | src/ml_timer.c:107-215 | in every interleaving a started timer posts on tick DivCeil(initial)+1 and every DivCeil(repeat) ticks after, and on no other |
| `TimerHandler.Handler.constructor` | src/ml_timer.c:172-176 | an empty list is its sentinel |
| `TimerHandler.Handler.InitTimer` | src/ml_timer.c:185-195 | a new timer is inactive and no other timer changes |
| `TimerHandler.Handler.Search` | src/ml_timer.c:44-54 | the search stops, at the sentinel at the latest, at the place of the timeout, with the delta relative to the node before |
| `TimerHandler.Handler.AdjustNext` | src/ml_timer.c:56-60 | taking the delta off the next node keeps all later timeouts; the tail is not touched |
| `TimerHandler.Handler.Link` | src/ml_timer.c:62-69 | the new node is linked between its neighbours |
| `TimerHandler.Handler.Insert` | src/ml_timer.c:38-70 | the timer goes in front of the first one not due earlier; every other timer keeps its remaining ticks |
| `TimerHandler.InsBehindZeros` | src/ml_timer.c:127-131 | a positive timeout is inserted behind all timers at zero, so a tick ends |
| `TimerHandler.Handler.Remove` | src/ml_timer.c:72-105 | only the given timer leaves the list, one that is not in it changes nothing |
| `TimerHandler.Handler.MergeNext` | src/ml_timer.c:94-97 | the successor inherits the delta, unless it is the tail |
| `TimerHandler.Handler.Stop` | src/ml_timer.c:217-223 | the timer is inactive in a new epoch; no other timer changes |
| `TimerHandler.Handler.Arm` | src/ml_timer.c:203-214 | an inactive timer runs for DivCeil(initial)+1 ticks; no other timer changes |
| `TimerHandler.Handler.ArmActive` | src/ml_timer.c:38-70 | arming an active timer always leaves a broken list: no chain with that timer in it ends at the sentinel; alone in the list the timer becomes its own successor with delta 0 |
| `TimerHandler.Handler.Start` | src/ml_timer.c:197-215 | a start is a stop and then an arming |
| `TimerHandler.Timer.TakeOldest` | src/ml_timer.c:230-237 | the answer is whether the oldest message in flight was posted in the current epoch |
| `TimerHandler.Handler.IsMessageValid` | src/ml_timer.c:225-242 | the answer is whether this very message was posted after the latest stop or start |
| `TimerHandler.Handler.CountDown` | src/ml_timer.c:117-118 | decrementing the head takes one tick off every active timer |
| `TimerHandler.Handler.FireHead` | src/ml_timer.c:120-131 | the head's message is posted and the timer re-armed at exactly its period |
| `TimerHandler.Handler.FireExpired` | src/ml_timer.c:120-132 | all timers at zero are fired in list order, and the loop ends |
| `TimerHandler.Handler.Tick` | src/ml_timer.c:107-136 | every countdown advances by one; the timers posting are exactly those with one tick left, once each |
| `TimerRuns.RunEvents` | src/ml_timer.c:107-242 | over every run of ticks, stops, armings of inactive timers and validity tests each timer in the list is the countdown it would be alone, and each test answers for its own message |
| `TimerRuns.AnswerExactlyUnlessStopped` | src/ml_timer.c:225-242 | over every such run a validity test answers true if and only if its timer was not stopped or started since the tick that posted the message |
| `QueueMonitor.StepKeepsInv` | src/ml_queue.c:88-124 | every critical section and wakeup keeps FIFO contents, capacity and the no-lost-wakeup bounds |
| `QueueMonitor.BlockedHasRunnablePeer` | src/ml_queue.c:94-100 | while a getter blocks on a non-empty queue, or a putter on one with room, a woken peer will proceed |
| `QueueMonitor.DeadlockExactlyOnLengthZero` | src/ml_queue.c:62-73 | getters and putters can block each other for good exactly on a queue of length 0 |
| `QueueMonitor.DeliveredInOrderOnce` | src/ml_queue.c:88-124 | in every reachable state the i-th message delivered is the i-th put, and at most `capacity` are queued |
| `QueueMonitor.GetTakesOrWaits` | src/ml_queue.c:88-101 | a get takes the oldest message and leaves, or waits and takes none |
| `QueueMonitor.ThreadPutsItsOwn` | src/ml_queue.c:108-119 | over every run the messages a thread pushes are those of its calls, in their order, and a blocked thread holds that of its latest call |
| `QueueMonitor.EveryCallAccounted` | src/ml_queue.c:108-119 | in every run each message was put as often as it was given to a call, less the calls still blocked with it |
| `QueueMonitor.WokenGettersDrain` | src/ml_queue.c:94-101 | while a getter blocks, the getters already woken suffice to empty the queue |
| `QueueMonitor.WokenPuttersFill` | src/ml_queue.c:112-120 | while a putter blocks, the putters already woken suffice to fill the queue |
| `MessageQueue.Queue.IsEmpty` | src/ml_queue.c:33-36 | equal positions mean no contents |
| `MessageQueue.Queue.IsFull` | src/ml_queue.c:38-41 | the test is exact: as many messages as requested |
| `MessageQueue.Queue.PushMessage` | src/ml_queue.c:43-49 | the message is appended |
| `MessageQueue.Queue.PopMessage` | src/ml_queue.c:51-60 | the oldest message is removed |
| `MessageQueue.Queue.Get` | src/ml_queue.c:88-106 | one critical section of a get is a monitor step that delivers the oldest message or blocks |
| `MessageQueue.Queue.PutSection` | src/ml_queue.c:108-119 | one critical section of a put is a monitor step that appends or blocks |
| `MessageQueue.Queue.Put` | src/ml_queue.c:108-124 | one call to put: appended or blocked, and the `on_put` callback is called once, exactly when the message is in and a callback is set |
| `WorkerPool.PoolStepKeeps` | src/ml_worker_pool.c:47-51 | each job taken is with exactly one worker or has run exactly once |
| `WorkerPool.JobsRunExactlyOnce` | src/ml_worker_pool.c:38-79 | in every run no job runs twice, and once all is idle every spawned job has run |
| `WorkerPool.SpawnedJobsRun` | src/ml_worker_pool.c:38-79 | once the queue is empty, all workers are idle and no spawn is blocked, the jobs that have run are exactly those spawned |
| `Bus.SortIsStrict` | src/ml_bus.c:50-83 | sorting elements with distinct identifiers gives a strictly sorted array |
| `Bus.IndexIsDetermined` | src/ml_bus.c:67-83 | the subscriptions determine the array, however it is sorted |
| `Bus.NewElementShiftsExactly` | src/ml_bus.c:67-83 | after a subscription to a new identifier a pointer into the array, if that stays in place, reads the same element if and only if its identifier is the smaller one |
| `Bus.OldElementsStay` | src/ml_bus.c:95-103 | a subscription to an identifier with an element leaves every element in its place |
| `Bus.BusObject.FindElement` | src/ml_bus.c:85-93 | binary search finds an element if and only if the identifier has one |
| `Bus.BusObject.InsertElement` | src/ml_bus.c:67-83 | one element is added and the array is sorted again |
| `Bus.BusObject.Subscribe` | src/ml_bus.c:129-143 | the array represents the subscriptions so far: each identifier's queues in order of subscription, none empty |
| `Bus.BusObject.Route` | src/ml_bus.c:111-126 | a broadcast goes to each subscription's queue once, in order, with a share count that is never negative |
| `Messages.StepReferences` | src/ml_message.c:44-90 | every step but a subscription changes the number of references to a message by exactly what alloc, free and share account for |
| `Messages.StepKeepsConserved` | src/ml_message.c:64-90 | count = references, and released exactly when none is left, are kept by every step but a subscription |
| `Messages.SubscribeKeepsExactly` | src/ml_bus.c:111-143 | a subscription keeps all counts and running broadcasts if and only if no broadcast of its identifier is under way and, when the identifier is new, no broadcast whose element moves |
| `Messages.SubscribeSafeExactly` | src/ml_bus.c:67-143 | wherever realloc puts the array, a subscription is safe if and only if no broadcast of its identifier, or of any when that is new, is under way |
| `Messages.ReferencesConserved` | src/ml_bus.c:111-127 | over every run with subscriptions only while the bus is quiet: counts equal references, each message is released once when the last reference goes, no queue holds a released message |
| `Messages.BroadcastServesInOrder` | src/ml_bus.c:111-127 | in every run a broadcast serves, until it is over or lost, the queues of its identifier once each in order of subscription, and is not over before it has served all that were subscribed at its start |
| `Messages.EverySubscriptionServedOnce` | src/ml_bus.c:111-127 | with subscriptions only while the bus is quiet a broadcast is not lost, and when over it was put on exactly the subscribed queues, once per subscription |
| `Messages.EverySubscriptionReceives` | src/ml_bus.c:111-127 | when a broadcast is over, each queue has given or still has its message once more for each of its subscriptions |
| `Messages.UidIsAllocated` | src/ml_message.c:44-62 | over every run the identifier of a message is the one alloc was called with, and never changes |
| `Messages.SubscribersReceive` | src/ml_bus.c:111-143 | from the calls of a run: a broadcast of a message allocated with an identifier was put on each queue as often as that queue had been subscribed to it, and the queue has given it or has it |
| `Messages.HeardExactly` | src/ml_bus.c:111-143 | a broadcast has queues to serve if and only if a subscription to its identifier was made |
| `Messages.QueueHistory` | src/ml_queue.c:43-60 | over every run what a queue had and got, from puts and broadcasts, is what it gave and has, in order |
| `Messages.BroadcastGoesOn` | src/ml_bus.c:121-123 | in every reachable state a running broadcast has an existing queue to serve or is done |
| `Messages.DisplacedBroadcastLeaks` | src/ml_bus.c:67-123 | a run in which a subscription to a new identifier moves the element of a running broadcast: the element in its place has no queue left to serve, the count stays one too high in every continuation and the message is never released |
| `Inet.ChecksumAcc` | src/ml_inet.c:36-49 | the accumulator is the sum of the big-endian words modulo 2^32 |
| `Inet.ChecksumIsReference` | src/ml_inet.c:51-70 | up to 131074 bytes the checksum is the one's complement checksum of sections 1 and 2 of RFC 1071 |
| `Inet.ReferenceExactly` | src/ml_inet.c:31-70 | all buffers of a size are checksummed right if and only if the size is at most 131074 |
| `Inet.OddIsPadded` | src/ml_inet.c:42-46 | a last odd byte counts as the high half of a word |
| `Inet.KnownSum` | src/ml_inet.c:36-49 | the example of section 3 of RFC 1071 has its sum |
| `Inet.SplitAnywhereEven` | src/ml_inet.c:36-49 | accumulating in two pieces split at an even offset changes nothing |
| `Inet.StoredChecksumVerifies` | src/ml_inet.c:62-70 | a checksum stored in a zeroed field at an even offset makes the checksum 0 |
| `DhcpOptions.Be32RoundTrip` | src/ml_dhcp_client.c:289-292 | 32-bit values written as four bytes read back |
| `DhcpOptions.UnpackAllOptions` | src/ml_dhcp_client.c:370-409 | the loop over the bytes ends and computes the recursive parser |
| `DhcpOptions.ParseExactly` | src/ml_dhcp_client.c:370-409 | bytes are accepted exactly when they encode a list of non-empty options up to End, with the fold over that list as the result |
| `DhcpOptions.LastOccurrenceWins` | src/ml_dhcp_client.c:315-368 | each known option has the value of its last occurrence; parsing fails exactly when a known option has a wrong length |
| `DhcpOptions.LengthsByCode` | src/ml_dhcp_client.c:315-368 | the known options by number, and the lengths they must have |
| `DhcpOptions.ValuesByCode` | src/ml_dhcp_client.c:289-368 | their values are big-endian, and of several name servers the first counts |
| `DhcpPacket.PackIpHeader` | src/ml_dhcp_client.c:932-951 | every packed header passes `is_ip_valid` |
| `DhcpPacket.PackDhcpFixed` | src/ml_dhcp_client.c:963-987 | hardware address, cookie and message type are in place and nothing else changes |
| `DhcpPacket.PackDhcpRequest` | src/ml_dhcp_client.c:989-1015 | the bytes are the encoding of three options and End |
| `DhcpPacket.RequestParses` | src/ml_dhcp_client.c:989-1015 | for all values a packed REQUEST parses to its message type, server and lease time |
| `DhcpPacket.RequestOptionBytes` | src/ml_dhcp_client.c:989-1015 | the option bytes of a REQUEST: server, address and lease time by their numbers |
| `DhcpPacket.BuildRequest` | src/ml_dhcp_client.c:1056-1067 | the whole REQUEST packet, byte for byte from its options on, and it parses back |
| `DhcpPacket.OfferExactly` | src/ml_dhcp_client.c:469-607 | any bytes are an OFFER exactly with the right header and length and options that encode a list with type 2, right lengths and five mandatory options, and each field of the record is the last occurrence of its option |
| `DhcpPacket.OfferBounds` | src/ml_dhcp_client.c:469-494 | an accepted OFFER has a lease time of 1 to 2^32 - 1 |
| `DhcpPacket.OfferIsReceived` | src/ml_dhcp_client.c:469-607 | every OFFER with a 32-bit address, mask, gateway, name server and non-zero lease time is received as such, as a packet on the packet socket and as a message on the UDP socket |
| `DhcpPacket.AckIsReceived` | src/ml_dhcp_client.c:496-607 | the ACK of a server is received as such on either socket |
| `DhcpPacket.NakIsReceived` | src/ml_dhcp_client.c:501-607 | the NAK of a server is received as such on either socket |
| `DhcpPacket.OfferOptionBytes` | src/ml_dhcp_client.c:315-368 | the option bytes of that OFFER, by their numbers |
| `DhcpPacket.AckNakExactly` | src/ml_dhcp_client.c:533-607 | any bytes are an ACK, or a NAK, exactly with the right header and length and options that encode a list of that type |
| `DhcpPacket.HeadersDecide` | src/ml_dhcp_client.c:506-551 | on the packet socket a packet counts if and only if checksum, version, protocol, address and ports are right; then its message does |
| `DhcpSpec.RenewalPositiveExactly` | src/ml_dhcp_client.c:490-491 | the renewal interval is positive exactly for lease times of 2 to 2^31 - 1 |
| `DhcpSpec.RenewalIsHalf` | src/ml_dhcp_client.c:490-491 | the renewal interval is half of a usable lease time, rounded down |
| `DhcpSpec.RoundKeeps` | src/ml_dhcp_client.c:1118-1176 | every poll round keeps the provenance invariant |
| `DhcpSpec.LeaseProvenance` | src/ml_dhcp_client.c:469-494 | over every run all lease fields are those of the last complete OFFER, and every configuration is of that OFFER, after an OFFER and a REQUEST since the last reset |
| `DhcpSpec.ConfiguredAsRequestedExactly` | src/ml_dhcp_client.c:482-493 | over every run the address configured is the one requested since the last reset if and only if no OFFER came after that REQUEST or the last one carries the same address |
| `DhcpSpec.SecondOfferIsConfigured` | src/ml_dhcp_client.c:1142-1150 | for any two OFFERs there is a run that requests the first and configures the second |
| `DhcpSpec.TransactionConfigures` | src/ml_dhcp_client.c:1118-1150 | DISCOVER, OFFER, REQUEST and ACK configure exactly the lease offered, for every OFFER |
| `DhcpSpec.OfferRecordedExactly` | src/ml_dhcp_client.c:469-494 | in every phase an OFFER replaces the record, with all its fields, if and only if the packet is that OFFER |
| `DhcpSpec.BoundOnlyOnAck` | src/ml_dhcp_client.c:1142-1176 | BOUND is entered only on an ACK in REQUESTING or RENEWING |
| `DhcpSpec.ConfiguredExactlyWhileBound` | src/ml_dhcp_client.c:1079-1176 | over every run the interface has been configured since the last reset exactly while the client is in BOUND or RENEWING |
| `DhcpSpec.SocketByPhase` | src/ml_dhcp_client.c:1079-1111 | over every run the client reads the UDP socket in BOUND and RENEWING and, while packet sockets can be had, the packet socket in all other phases |
| `DhcpSpec.RenewalIsAcknowledged` | src/ml_dhcp_client.c:1153-1176 | in every run the REQUEST of a bound client whose renewal timer expires and the ACK over UDP bind it again with its lease configured anew |
| `DhcpSpec.RunTimersFit` | src/ml_dhcp_client.c:806-851 | over every run only the renewal timer can be armed where it is not waited for; the response timer is set to 5 seconds, the init timer to 10 |
| `DhcpSpec.BoundTimers` | src/ml_dhcp_client.c:1099-1103 | on an ACK the renewal timer is set to half the lease time, the rebinding timer to 10 seconds more |
| `DhcpSpec.StartsOverExactly` | src/ml_dhcp_client.c:1079-1176 | a round leads back to INIT exactly on a failed REQUEST or UDP socket, a NAK, or an expiry without the packet waited for |
| `DhcpSpec.NeverStuck` | src/ml_dhcp_client.c:1079-1176 | in every run with usable lease times the awaited timer is armed |
| `DhcpSpec.QuietLeadsToDiscover` | src/ml_dhcp_client.c:1118-1176 | without packets at most one expiry leads to INIT, from BOUND two, and from then on the first time sending works a DISCOVER goes out |
| `DhcpSpec.BoundForever` | src/ml_dhcp_client.c:1153-1162 | a bound client without renewal timer stays bound and silent for ever |
| `DhcpSpec.WakesExactly` | src/ml_dhcp_client.c:1079-1111 | in every run, on entering BOUND the renewal timer is armed if and only if the lease time is usable, or its renewal interval is negative and the timer was still armed; otherwise BOUND is never left |
| `DhcpSpec.StrayRenewalWakes` | src/ml_dhcp_client.c:1079-1111 | a run in which the renewal timer of a lease whose UDP socket failed wakes a client whose own lease has no renewal |
| `DhcpSpec.WakesExactlyOnUsableLease` | src/ml_dhcp_client.c:1099-1111 | where no UDP socket fails, on entering BOUND the renewal timer is armed if and only if the lease time is usable |
| `DhcpClient.ClientObject.constructor` | src/ml_dhcp_client.c:1345-1356 | the client starts in INIT with the init timer armed |
| `DhcpClient.ClientObject.UnpackOffer` | src/ml_dhcp_client.c:482-493 | the record is replaced as a whole |
| `DhcpClient.ClientObject.Update` | src/ml_dhcp_client.c:770-793 | the packet is parsed in every state and expired timers are read |
| `DhcpClient.ClientObject.Set` | src/ml_dhcp_client.c:806-851 | zero disarms a timer, a negative time changes nothing |
| `DhcpClient.ClientObject.Reinit` | src/ml_dhcp_client.c:1079-1087 | entering INIT |
| `DhcpClient.ClientObject.BecomeBound` | src/ml_dhcp_client.c:1099-1111 | entering BOUND, or INIT when no UDP socket can be had |
| `DhcpClient.ClientObject.Request` | src/ml_dhcp_client.c:853-889 | a REQUEST sent arms the response timer, a failed one leads to INIT |
| `DhcpClient.ClientObject.BroadcastDiscover` | src/ml_dhcp_client.c:1118-1127 | a DISCOVER sent leads to SELECTING, a failed one re-arms the init timer |
| `DhcpClient.ClientObject.Process` | src/ml_dhcp_client.c:1280-1307 | the five per-state handlers |
| `DhcpClient.ClientObject.Poll` | src/ml_dhcp_client.c:1309-1331 | one poll round is one step of the state machine; it keeps its invariants on provenance, socket and timers, only adds to a trace in which every configuration is justified, and keeps the awaited timer armed while all leases offered are usable |
| `ShellTokens.ParseFailsExactly` | src/ml_shell.c:247-275 | parsing fails exactly on a blank line, an odd number of unescaped quotes or more than 32 arguments |
| `ShellTokens.ScanQuoted` | src/ml_shell.c:202-245 | a quoted argument is read back exactly |
| `ShellTokens.RoundTrip` | src/ml_shell.c:247-275 | 1 to 32 arguments printed quoted parse to themselves |
| `ShellTokens.StripSplits` | src/ml.c:225-276 | stripping leaves what is between white space at the two ends |
| `ShellTokens.StripExactly` | src/ml.c:225-276 | there is only one such text |
| `ShellTokens.ReadsBackExactly` | src/ml_shell.c:202-275 | 1 to 32 arguments, each with quotes or, if it needs none, without, with white space around the line, are read back if and only if the white space after each starts with a space |
| `ShellTokens.OtherBlankIsKept` | src/ml_shell.c:202-245 | white space in front of the space becomes part of the argument |
| `ShellParser.RemoveAt` | src/ml_shell.c:211-227 | the memmove removes one character from the string |
| `ShellParser.ParseArgument` | src/ml_shell.c:202-245 | the in-place scan leaves exactly the argument and the rest of the line in the buffer, and nothing before it changes |
| `ShellParser.RStripInPlace` | src/ml.c:252-276 | trailing white space is cut off |
| `ShellParser.LStripFrom` | src/ml.c:233-250 | leading white space is skipped |
| `ShellParser.ParseCommandInPlace` | src/ml_shell.c:247-275 | failure and all arguments in the buffer are those of the pure tokenizer |
| `ShellLine.Line.Insert` | src/ml_shell.c:294-311 | the character is inserted at the cursor unless the buffer is full |
| `ShellLine.Line.InsertString` | src/ml_shell.c:313-323 | as much of the string as fits is inserted at the cursor |
| `ShellLine.Line.Delete` | src/ml_shell.c:325-338 | the character at the cursor is removed |
| `ShellLine.Line.Seek` | src/ml_shell.c:366-381 | the cursor stays within the line |
| `ShellLine.Line.Backspace` | src/ml_shell.c:1597-1602 | the character before the cursor is removed and the cursor moves back; at the start of the line nothing changes |
| `ShellLine.ErasedUndoesTyped` | src/ml_shell.c:294-338 | deleting takes back what was typed, in any text at any cursor, and typing what was deleted |
| `ShellLine.FittingExactly` | src/ml_shell.c:313-323 | a string is inserted up to a line of 255 characters |
| `ShellCompletion.FindFirst` | src/ml_shell.c:1505-1518 | the first command starting with the line, if any |
| `ShellCompletion.FindMismatch` | src/ml_shell.c:1528-1542 | whether some matching command continues differently |
| `ShellCompletion.ListAlternatives` | src/ml_shell.c:1561-1576 | the scan up to the first name that does not match lists all commands that start with the line |
| `ShellCompletion.AlternativesExactly` | src/ml_shell.c:1561-1576 | the names listed are one stretch of the table, with all names that start with the line and no other |
| `ShellCompletion.AutoComplete` | src/ml_shell.c:1492-1577 | a line no command starts with is left alone, any other becomes what the completion loop specifies; all matches are listed exactly when they differ in the first character to complete |
| `ShellCompletion.PrefixBetween` | src/ml_shell.c:2176-2181 | names with a common prefix are contiguous in strcmp order |
| `ShellCompletion.LessExactly` | src/ml_shell.c:2176-2181 | the order of the table is that of the first character in which two names differ |
| `ShellCompletion.CompletionIsLongestCommonPrefix` | src/ml_shell.c:1520-1559 | with the cursor at the end the line becomes the longest common prefix of its matches, plus a space exactly when they all have the same name |
| `ShellCompletion.SpaceFollowsExactlyUpTo254` | src/ml_shell.c:297-300 | the only matching name is completed with a space exactly when it has at most 254 characters |
| `HistorySpec.HistoryIsLast64` | src/ml_shell.c:1373-1423 | the history is the last 64 commands with consecutive repeats collapsed |
| `HistorySpec.DownsUndoUps` | src/ml_shell.c:1425-1468 | k UPs and k DOWNs restore the edited text |
| `HistorySpec.UpsShowOldest` | src/ml_shell.c:1428-1448 | any number of UPs shows the entry so many places from the end, at most the oldest |
| `HistorySpec.UpsWithoutHistory` | src/ml_shell.c:1430-1431 | without a history UP changes nothing |
| `HistorySpec.DownOutsideExactly` | src/ml_shell.c:1453-1473 | over every sequence of keys DOWN outside the history leaves the line alone if and only if the history was not last left with Enter or DOWN was pressed since; otherwise it shows the line edited before the history was entered |
| `HistorySpec.DownAfterEnterRestores` | src/ml_shell.c:1430-1473 | typing a line, UP, Enter and DOWN brings that line back |
| `ShellHistory.History.DropHead` | src/ml_shell.c:1385-1399 | the oldest entry is unlinked and both link directions stay consistent |
| `ShellHistory.History.LinkTail` | src/ml_shell.c:1407-1419 | the new entry is linked at the end in both directions |
| `ShellHistory.History.Append` | src/ml_shell.c:1373-1423 | the linked list holds the history after one more command |
| `ShellHistory.History.Execute` | src/ml_shell.c:1943-1956 | a non-empty line is appended and browsing ends |
| `ShellHistory.History.GetPrevious` | src/ml_shell.c:1428-1448 | UP moves to the previous entry and first saves the edited line |
| `ShellHistory.History.GetNext` | src/ml_shell.c:1453-1468 | DOWN moves to the next entry or back to the saved line |
| `OneWireSpec.MsgKeepsExactly` | src/ml_one_wire.c:399-410 | a reply keeps the invariant of the driver if and only if it is not one of the two harmful ones |
| `OneWireSpec.HarmfulExactly` | src/ml_one_wire.c:260-276 | a reply is one of the two harmful ones if and only if a possible continuation without another can put a response on no queue |
| `OneWireSpec.FirstReadingAnswers` | src/ml_one_wire.c:366-449 | the first whole scratchpad in a reply, and only that, answers the request with its temperature |
| `OneWireSpec.MessageExactly` | src/ml_one_wire.c:366-489 | what one message does in each phase: an error status answers, the first write ends the conversion, the first scratchpad answers, and all else changes nothing |
| `OneWireSpec.OtherSeqnoIgnored` | src/ml_one_wire.c:473-488 | a reply with another sequence number than the one waited for changes nothing |
| `OneWireSpec.BusyAnswers` | src/ml_one_wire.c:249-258 | a request while another is active is answered with -16 and changes nothing else |
| `OneWireSpec.FailedSendAnswers` | src/ml_one_wire.c:319-364 | a failed send answers its request with the negative error |
| `OneWireSpec.SeqnosCycle` | src/ml_one_wire.c:175-187 | over every run the sequence numbers sent are 1 to 1000 in turn |
| `OneWireSpec.TimerIsForConversion` | src/ml_one_wire.c:347-351 | over every run the timer is only started for 750 ms |
| `OneWireSpec.ConversionGetsItsTime` | src/ml_one_wire.c:347-351 | a timer started for 750 ms never fires early |
| `OneWireSpec.TransactionAnswersReading` | src/ml_one_wire.c:319-379 | from any idle state request, conversion, timeout and read answer the request once with the temperature read, on the next two sequence numbers |
| `OneWireSpec.StepKeeps` | src/ml_one_wire.c:319-449 | every handler keeps the invariant |
| `OneWireSpec.EveryRequestAnsweredOnce` | src/ml_one_wire.c:249-276 | over every harmless run: idle = no response queue = sequence number -1, requests = responses + active, none answered twice |
| `OneWireSpec.TemperatureOnlyAfterConversion` | src/ml_one_wire.c:319-379 | over every harmless run each answered request was refused, failed or took all steps in order; a response with result 0 comes only after that request's own start, conversion and timeout |
| `OneWireSpec.HarmfulRunFaults` | src/ml_one_wire.c:353-364 | both harmful replies lead to a response on no queue: in a fresh driver and during the conversion wait |
| `OneWireSpec.HarmfulRunAnswersEarly` | src/ml_one_wire.c:353-364 | after a failed status during the conversion wait a later request can be answered with a temperature that was not converted for it |
| `OneWireBytes.ParseCmdsExactly` | src/ml_one_wire.c:381-397 | the commands found in a message are exactly those its data encodes, up to a rest with no whole command |
| `OneWireBytes.ParseMsgsExactly` | src/ml_one_wire.c:451-463 | the data of a reply is taken as a list of messages exactly when it is their encoding |
| `OneWireBytes.ScratchpadReadsBack` | src/ml_one_wire.c:93-100 | every 16-bit temperature is read back from the bytes of a scratchpad reply |
| `OneWireBytes.ScratchpadBytes` | src/ml_one_wire.c:68-100 | the bytes of that reply, one by one |
| `OneWireBytes.OtherKindBytesIgnored` | src/ml_one_wire.c:473-485 | messages of another kind than 5 change nothing |
| `OneWire.Driver.constructor` | src/ml_one_wire.c:676-681 | the driver starts idle |
| `OneWire.Driver.Finish` | src/ml_one_wire.c:260-276 | the active request is answered and forgotten |
| `OneWire.Driver.SendMessage` | src/ml_one_wire.c:175-247 | sequence numbers run from 1 to 1000; a failed send returns its negative error |
| `OneWire.Driver.OnRequest` | src/ml_one_wire.c:319-345 | a request is answered busy, started, or answered with the send error; the invariant is kept |
| `OneWire.Driver.OnTimeout` | src/ml_one_wire.c:353-364 | the scratchpad is requested; the invariant is kept |
| `OneWire.NextCmd` | src/ml_one_wire.c:381-397 | the command at an offset, exactly when its header and data are within the message |
| `OneWire.Driver.OnSlaveResponse` | src/ml_one_wire.c:399-449 | a failed status answers the request, otherwise the loop over offsets handles all commands in the data in order |
| `OneWire.Driver.OnReply` | src/ml_one_wire.c:465-489 | the loop over offsets handles the messages with the expected sequence number in order; a reply with another number leaves the driver as it was, a harmless one keeps the invariant |

## Where code and documentation differ

- `src/ml_dhcp_client.c` reads option 0 with a length byte like any other option, while section 3.1 of RFC
  2132 makes it a pad without length; an option of length 0 makes parsing fail. The model follows
  the code.
- `src/ml_shell.c` says that an argument needs quotes if it contains spaces, and strips all white space
  before the next one. White space other than a space does not end an argument but becomes part of it,
  also in front of a space. The model follows the code.
- The lease time option is unsigned and is stored in a signed field; lease times of 2^31 seconds and more
  become negative there. The model follows the code.

## Left out

- TimerHandler.Handler.Tick: a put on a full queue, which blocks the tick with the mutex held, is not modelled; the puts are recorded in order.
- TimerHandler.Handler.Arm: takes an inactive timer; `TimerHandler.Handler.ArmActive` states what happens to an active one.
- TimerHandler.Timer.TakeOldest: the counters are unbounded integers; 2^31 messages in flight are not modelled.
- Countdown.NeverEarlyExactly: a tick that is delayed and then followed by the next one in under 100 ms is outside its assumption.
- Messages.ReferencesConserved: message headers are values of a step system, not objects; a put on a full queue is a step that has not happened yet. A subscription is one whole step, although no lock makes it one.
- Messages.BroadcastServesInOrder: what a broadcast does once it is lost is not modelled; `Messages.DisplacedBroadcastLeaks` states it of one run.
- Bus.SortIsStrict: qsort is represented by an insertion sort; `Bus.IndexIsDetermined` shows that the choice does not matter.
- Inet.ChecksumAcc: the byte read past an odd buffer, which is masked out, is not modelled.
- DhcpSpec.NeverStuck: a timer call with a valid argument is taken to succeed, and poll to return a positive number; otherwise the client thread ends for good.
- DhcpPacket.PackIpHeader: the UDP header and the DISCOVER packet are not modelled.
- ShellCompletion.AutoComplete: a line with a NUL character typed into it is not modelled.
- ShellCompletion.CompletionIsLongestCommonPrefix: says nothing about a cursor inside the line; there the completion loop types at the cursor, as `ShellCompletion.AutoComplete` states.
- ShellHistory.History.Append: allocation failure is not modelled.
- OneWire.Driver.OnReply: data that does not end with a whole message, which the code reads past, is excluded; integers are little-endian; the temperature is the raw scratchpad value, in sixteenths of a degree.
- Terminal output, word deletion and character swapping, reverse search and the commands of the shell.
- Network, device mapper, RTC, NTP, log object and system call wrappers: ioctl and socket plumbing.
