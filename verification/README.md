# Network programs: a serializer, a reactor and an HTTP server

This project models three parts of the repository and proves what they are for.

**The serializer** (`bgnet_examples/pack2.c` and its fixed-width variant `pack2b.c`). A format
string drives `pack` and `unpack` over integers, length-prefixed strings and floating-point
numbers, which `pack754` and `unpack754` turn into words and back. `Bits.dfy` has shifts, masks
and OR on unbounded numbers, `FloatCodec.dfy` the codec with its loops, `FloatCodecLaws.dfy` its
inverses, its error bound and its order, `Serializer.dfy` the two programs over a byte array,
`SerializerLaws.dfy` the round trips,
`Decimals.dfy` decimal numbers.

**The reactor** (`src/event_loop.c`, `channel.c`, `event_dispatcher.c`, `thread_pool.c`). Threads
put registrations on a loop's pending list under a mutex and wake its owner, who drains the list
into a channel map and a table of poll slots. `Registration.dfy` says what one drained operation
does and relates map and slots to the interest map that epoll keeps, `EventLoop.dfy` is the object
with its linked list and arrays, `Dispatch.dfy` is the sweep over ready slots with callbacks that
change the table under way, `DispatchSlots.dfy` says which descriptor a slot is handled for,
`Epoll.dfy` is the sweep over epoll's events, `EpollInterest.dfy` the interest that the kernel keeps
beside the map, `DispatchInputs.dfy` has inputs on which the sweeps
go wrong, `Reactor.dfy` is the protocol of the threads as a step system with one
program counter per thread, `ThreadPool.dfy` the start-up handshake and the round robin.

**The connection** (`src/buffer.c`, `lib_tcp_server.c`, `lib_http.c`, `server.c`). `Text.dfy` has
the searches, `Buffer.dfy` the compacting buffer as a byte queue, `SendPath.dfy` the output side
under partial writes, `HttpRequest.dfy` the parser's loop, `HttpRequestLaws.dfy` its inverse,
`HttpResponse.dfy` the encoder and a client that splits its output again, `ConnectionModel.dfy` a
whole connection as a state machine, `Answering.dfy` when it answers everything and when the answers
arrive, `HttpServer.dfy` the objects and callbacks that implement that machine in place.
`Splitting.dfy` says what a client can make of the stream, `Composition.dfy` joins the connection to
the reactor.

Methods follow the loops and updates of the program, and each is tied by its `ensures` to a
function on values; the laws are proved about those functions.

## Where the code and its intent differ

The code is followed, with these exceptions and remarks.

- `src/channel.c:31` clears the write bit with `| (~EVENT_WRITE)`, which does not clear it. Both
  forms are modelled (`Clearing`). The object in `HttpServer.dfy` uses the form as written. With it
  interest is off after a run if and only if no send was left with anything over
  (`InterestOffExactly`).
- `src/channel.c:22` and `:30` take the channel's data for the event loop, although
  `src/lib_tcp_server.c:128-129` stores the connection there. The connection's loop is meant.
- `src/lib_http.c:158`, `:167` and `:173` put the terminator one place behind the allocated string.
  The strings are taken to be the bytes copied, up to a NUL among them.
- `src/server.c:8-18` does not terminate the path it copies. The path is taken to be those bytes.
- `src/lib_http.c:182-221` goes round for ever while no CRLF is buffered. The model says so
  (`Waiting`, `Spinning`); `LoopEndsExactly` says on which bytes it ends, `SpinsWithoutCrlf` is one on
  which it does not.
- `src/lib_http.c:23` names room for 128 headers but multiplies by the size of another structure,
  which is three times that of a header on 32-bit and on 64-bit machines. The capacity is the 384
  entries that are there (`CapacityIsRoom`), and the header after that is an error outcome.
- A header line without ": " ends the headers and only two bytes of it are consumed
  (`src/lib_http.c:214-218`); `EndEatsTwo` says what is left, `ColonWithoutSpace` is an input.
- One message is answered with one response even when more requests have arrived
  (`src/lib_http.c:225-254`); `AnsweredExactly` says when every request is answered all the same, and
  `SecondWaits` is an input on which one is not.
- The factor of `bgnet_examples/pack2.c:37` is formed in single precision, so that its half is lost
  from 23 significand bits on. `Layout.half` is that constant; all laws hold for every value from 0
  to 0.5.
- At the top of a binade the significand can reach 2^sigbits, and `pack2.c:43` then ORs it onto the
  exponent. The error bound then holds exactly when that exponent is even (`ErrorBound`);
  `CarryIsLost` is a 16-bit input on which it is odd. Without the half no significand gets there
  (`CarryNeedsHalf`).
- A maximum in front of `s` keeps string and terminator within it except for a string of exactly
  that length (`bgnet_examples/pack2.c:446-449`). `CutField` says what is stored.
- `src/event_loop.c:131` allocates the size of a pointer for a list element. The element is meant.
- `src/event_dispatcher.c:260-281` handles a slot that a callback has reused with the events that
  were reported for its former descriptor; `StaleExactly` says when, `StaleReadiness` is an input.
- `src/event_dispatcher.c:106-127` activates a reported descriptor even when an earlier callback of
  the same sweep has unregistered it; `EpollFaultsExactly` says when, `OnlyPollSurvives` is an input.
- `src/event_dispatcher.c:107-112` closes the descriptor of an error event and leaves its channel in
  the map. `SweepAgreesExactly` says when map and kernel agree after a sweep all the same,
  `KernelAgreesExactly` after any run; `ErrorLeavesChannel` is an input on which they do not.
- The half-close of `src/lib_http.c:247-249` does not wait for buffered output. `ClosingReadExactly`
  says when the response arrives whole, `CloseCutsOff` is an input on which none of it does, and with
  the clearing as written every close after one buffered response fails (`LaterClosesAreLost`).
- A 404 answer announces a close (`src/server.c:32-36`) and so has no length, but the server leaves
  the connection open. `ClientSplitsStream` says what that leaves of the stream.

## Model

| member | source | states |
|---|---|---|
| FloatCodec.Normalize | bgnet_examples/pack2.c:30-33 | both loops end on every positive number, by the floor of the number and of its inverse, and leave its mantissa in [1, 2) with its exponent |
| FloatCodec.Normal | bgnet_examples/pack2.c:30-33 | the mantissa lies in [1, 2) and mantissa times 2^exponent is the number |
| FloatCodec.NormalUnique | bgnet_examples/pack2.c:30-33 | there is no other such form, so normalising any form's value gives that form back |
| FloatCodec.Pack754 | bgnet_examples/pack2.c:17-44 | the loops and the joined fields compute the encoding that the laws below are about |
| FloatCodec.Unpack754 | bgnet_examples/pack2.c:49-73 | the two scaling loops compute the decoding that the laws below are about |
| FloatCodecLaws.CodeFields | bgnet_examples/pack2.c:42-43 | sign, exponent and significand put together can be read back each from its place, and fill no more than the word |
| FloatCodecLaws.WordIsCode | bgnet_examples/pack2.c:58-70 | every word is put together from the three fields that the decoder reads |
| FloatCodecLaws.JoinInRange | bgnet_examples/pack2.c:43 | OR-ing the fields adds them, except that a full significand is carried into an even exponent and swallowed by an odd one |
| FloatCodecLaws.SignificandExact | bgnet_examples/pack2.c:34-37 | a decoded fraction is encoded to the significand it came from, for any factor constant from 0 to 0.5 |
| FloatCodecLaws.PackUnpack | bgnet_examples/pack2.c:17-73 | for every word of the width, encoding what it decodes to gives the word back |
| FloatCodecLaws.UnpackPack | bgnet_examples/pack2.c:17-73 | a number survives encoding and decoding, also through a buffer field of the width, if and only if it is representable |
| FloatCodecLaws.SmallestIsLost | bgnet_examples/pack2.c:24-43 | positive 2^-bias is encoded as zero and so does not survive |
| FloatCodecLaws.ErrorBound | bgnet_examples/pack2.c:30-43 | a number in range is decoded to within (-1, +1/2] units in the last place if and only if its word does not vanish and no odd exponent swallows a carry |
| FloatCodecLaws.CarryIsLost | bgnet_examples/pack2.c:37-43 | 8191/4096 in 16 bits has a full significand and an odd exponent, is packed as 1 and misses the bound |
| FloatCodecLaws.CarryNeedsHalf | bgnet_examples/pack2.c:37-43 | where the factor has lost its half no significand is full and no carry is lost |
| FloatCodecLaws.WideFormatsKeepBound | bgnet_examples/pack2.c:7-12 | so in 32 and 64 bits the bound holds for every number in range whose word does not vanish |
| FloatCodecLaws.ExponentWraps | bgnet_examples/pack2.c:36-43 | for every nonzero number, also one whose exponent does not fit, the significand is stored as it is and the exponent modulo 2^expbits, unless the significand is full |
| FloatCodecLaws.UnpackIncreasing | bgnet_examples/pack2.c:56-72 | decoding is strictly increasing on words without sign |
| Serializer.StoreInt | bgnet_examples/pack2.c:78-101 | the bytes of the number, most significant first, are stored at their place and nothing else changes |
| Serializer.ByteAt | bgnet_examples/pack2.c:78-101 | byte j of w holds the number shifted right by the bits of the bytes behind it, so the most significant byte comes first |
| Serializer.StoreField | bgnet_examples/pack2.c:235-322 | one argument is stored as its field's bytes and nothing else changes |
| Serializer.PackFormat | bgnet_examples/pack2.c:206-329 | the buffer starts with the encoding of all arguments, the rest of it is unchanged, and the size of the encoding is returned |
| Serializer.LoadField | bgnet_examples/pack2.c:372-451 | one field is read in place as from the rest of the buffer, or found to reach over its end |
| Serializer.UnpackFormat | bgnet_examples/pack2.c:345-463 | the values stored are those of decoding the whole buffer under the format, and failure is reported exactly when it ends inside a field |
| SerializerLaws.CutField | bgnet_examples/pack2.c:442-451 | of a string longer than its maximum the first max - 1 bytes are stored, of any other string all; the buffer is walked over as without a maximum |
| SerializerLaws.Pack2Characters | bgnet_examples/pack2.c:195-203 | the range of numbers and the float format that each character of pack2 carries, and that all other characters name no field |
| SerializerLaws.Pack2bCharacters | bgnet_examples/pack2b.c:166-169 | the same for pack2b |
| SerializerLaws.MaxOfMore | bgnet_examples/pack2.c:453-456 | reading one more digit gives the decimal value of all digits so far, modulo 2^32 in pack2 |
| SerializerLaws.PrintedMaximum | bgnet_examples/pack2.c:453-456 | a maximum printed into the format is the one that applies |
| Decimals.ReadingIsWeight | bgnet_examples/pack2.c:453-456 | the value read from digits is the sum of the digits times their powers of ten |
| SerializerLaws.UnsignedBigEndian | bgnet_examples/pack2.c:78-190 | reading the stored bytes gives the number modulo the field's width |
| SerializerLaws.BigEndianUnsigned | bgnet_examples/pack2.c:78-190 | storing the number read gives the bytes back, and it is below the field's width |
| SerializerLaws.IntSurvives | bgnet_examples/pack2.c:106-175 | a number comes back, signed or unsigned, if and only if it is in its field's range |
| SerializerLaws.WidenedWord | bgnet_examples/pack2b.c:293-305 | reading a float through a sign-extended word decodes to the same number |
| SerializerLaws.RoundTrip | bgnet_examples/pack2.c:206-463 | `unpack` of what `pack` wrote, whatever follows it, returns the arguments and walks over exactly the bytes written if every argument fits its field, and otherwise does not return the arguments |
| SerializerLaws.StrRoundTrip | bgnet_examples/pack2b.c:307-316 | a string comes back if and only if it has no NUL, is no longer than the length field reads back (65535, or 32767 when read signed) and not longer than the maximum |
| SerializerLaws.IntWraps | bgnet_examples/pack2.c:78-175 | a number out of its field's range comes back as the one in range with the same low bits |
| SerializerLaws.NulEndsString | bgnet_examples/pack2.c:314-322 | a string is written up to its first NUL |
| SerializerLaws.LongStringLayout | bgnet_examples/pack2.c:314-322 | all of a string is written behind its length modulo 2^16, however long it is |
| SerializerLaws.Restores | bgnet_examples/pack2.c:345-463 | for formats without digits, `pack` of what `unpack` stored restores the bytes walked over if and only if no string holds a NUL |
| SerializerLaws.MaximumCutsOneString | bgnet_examples/pack2.c:442-459 | digits in front of an `s` cut that one string and leave every other value, the size and any failure as without them |
| SerializerLaws.CutFieldExists | bgnet_examples/pack2.c:442-451 | the string that is cut is the one at that place of the values |
| Registration.Doubled | src/channel.c:42-46 | doubling ends above the index and at most at twice the index |
| Registration.ExpandKeeps | src/channel.c:39-56 | growth keeps old entries, nulls new ones, makes room for the index and stays within the larger of 32 and twice the index |
| Registration.DoublesJustEnough | src/channel.c:44-46 | the new size is the smallest of the doubled ones above the index |
| Registration.FirstGrowth | src/channel.c:42-46 | the first growth starts from 32 entries |
| Registration.CopyingIsLinear | src/channel.c:39-56 | all growths of a run copy no more entries than the growth in capacity |
| Registration.EmptyMapCopies | src/channel.c:39-62 | from the empty map, the entries copied are fewer than the final capacity |
| Registration.Find | src/event_dispatcher.c:177-184 | the table loop stops at the first slot that matches |
| Registration.FreeSlot | src/event_dispatcher.c:163-192 | there is a free slot exactly while fewer than 1024 descriptors are registered |
| Registration.AddAgrees | src/event_dispatcher.c:163-192 | an added descriptor is in one slot with the mask of its events if and only if the table was not full |
| Registration.DeleteAgrees | src/event_dispatcher.c:193-213 | a deleted descriptor is in no slot and the other slots are as before |
| Registration.UpdateAgrees | src/event_dispatcher.c:214-243 | an updated descriptor keeps its one slot and has the new mask there |
| Registration.FaultsExactly | src/event_loop.c:210-272 | an operation reaches for a null channel or behind the map exactly when it removes an unregistered descriptor inside the map or updates one outside it |
| Registration.ResultTells | src/event_loop.c:210-272 | the result is 1 exactly when what is registered changed, -1 exactly when a remove or update found no such descriptor, and 0 otherwise |
| Registration.EntriesStay | src/event_loop.c:224-232 | the channel first added for a descriptor stays in the map until it is removed, whatever is added or updated for it later |
| Registration.ApplyAgrees | src/event_loop.c:210-272 | after a drained operation map and slots hold exactly the entries of epoll's interest map if and only if a new descriptor found room |
| Registration.RunAgrees | src/event_dispatcher.c:59-95 | over every run of operations that name registered descriptors and stay within the table nothing faults and the poll table refines the interest map of epoll |
| Registration.AgreeAlongExactly | src/event_loop.c:177-272 | map, slots and interest map agree all along a run without a fault if and only if every operation in it is safe and every new descriptor finds room |
| EventLoops.EventLoop.BufferNoblock | src/event_loop.c:128-142 | the linked list has the new operation at its end and the others as before |
| EventLoops.EventLoop.MapExpandSpace | src/channel.c:39-56 | the array is that of the growth function |
| EventLoops.EventLoop.FindSlot | src/event_dispatcher.c:177-184 | the loop finds the first matching slot |
| EventLoops.EventLoop.PollAdd | src/event_dispatcher.c:163-192 | the slot table after an add |
| EventLoops.EventLoop.PollDelete | src/event_dispatcher.c:193-213 | the slot table after a delete |
| EventLoops.EventLoop.PollUpdate | src/event_dispatcher.c:214-243 | the slot table after an update |
| EventLoops.EventLoop.HandlePendingAdd | src/event_loop.c:210-233 | map, table and return value after an add |
| EventLoops.EventLoop.HandlePendingRemove | src/event_loop.c:234-258 | map, table and return value after a remove, or a null channel |
| EventLoops.EventLoop.HandlePendingUpdate | src/event_loop.c:259-272 | table and return value after an update, or a read behind the map |
| EventLoops.EventLoop.HandlePendingChannel | src/event_loop.c:177-208 | draining applies the pending operations from head to tail, empties the list and takes the flag down |
| EventLoops.EventLoop.ChannelEventActivate | src/event_loop.c:79-108 | the callback of the descriptor's channel runs, or no such channel is there |
| EventLoops.EventLoop.PollDispatch | src/event_dispatcher.c:244-284 | the loop with its countdown makes the calls and leaves the table of the sweep that the laws below are about |
| Dispatch.CountdownIsSound | src/event_dispatcher.c:260-281 | given poll's count, leaving the loop early makes the same calls and the same changes as going on to the last slot, whatever the callbacks register or unregister |
| Dispatch.StopsAtCount | src/event_dispatcher.c:277-278 | no more slots are handled than poll counted |
| Dispatch.ErrorOnlySlot | src/event_dispatcher.c:266-279 | a slot with an error or hang-up only uses up one of the count and calls nothing |
| Dispatch.ActivateTells | src/event_loop.c:85-107 | a descriptor behind the map is passed over, otherwise the callback runs exactly if its channel is there |
| Dispatch.CallsInOrder | src/event_dispatcher.c:260-281 | slots are handled in order and in one iteration each, read before write, only for events reported for the slot |
| DispatchSlots.NoReadySlotMissed | src/event_dispatcher.c:260-281 | a reported descriptor that no callback of an earlier slot removes gets its events once the sweep comes to its slot, the write event unless its own read half faults, whatever else callbacks add, update and delete and whatever faults later |
| DispatchSlots.SlotHolds | src/event_dispatcher.c:163-213 | after any list of operations a slot holds another descriptor than before if and only if one was added there, the slot being the first free one, and not freed again |
| DispatchSlots.StaleExactly | src/event_dispatcher.c:260-281 | some call is for another descriptor than poll reported if and only if an add drained in the sweep finds its first free slot in a reported slot still ahead, and that is not freed again before its turn |
| DispatchSlots.CallsAreForReported | src/event_dispatcher.c:260-281 | so a call is for the reported descriptor while no callback of an earlier slot adds anything |
| DispatchInputs.StaleReadiness | src/event_dispatcher.c:260-281 | an input on which a descriptor is handled that poll never reported |
| Dispatch.SlotFaultsExactly | src/event_loop.c:79-108 | handling a slot reaches for a missing channel exactly when both events were reported and the read callback left the descriptor unregistered; otherwise map, slots and interest still agree |
| Dispatch.SweepFaultsExactly | src/event_dispatcher.c:260-281 | over a whole sweep nothing else can reach for a missing channel |
| DispatchInputs.ReaderTakesItself | src/event_loop.c:92-105 | an input on which it happens: both events reported, and the read callback unregisters its descriptor |
| EventLoops.EventLoop.EpollDispatch | src/event_dispatcher.c:96-128 | the loop over the events closes the descriptors, and leaves map and table, of the sweep that the laws below are about |
| Epoll.OneEvent | src/event_dispatcher.c:106-127 | an error closes and runs no callback; otherwise input runs the read callback and room the write callback, in that order |
| Epoll.ErrorsDrainNothing | src/event_dispatcher.c:107-112 | a sweep leaves the loop as the sweep over those of its events that are not errors |
| Epoll.EpollFaultsExactly | src/event_dispatcher.c:106-127 | the sweep over epoll's events reaches for a missing channel exactly when an earlier callback of it has unregistered a descriptor whose event is still to come |
| Epoll.OwnRemovalsAreSafe | src/event_dispatcher.c:106-127 | that never happens while callbacks unregister no descriptor but their own, and not in a read callback with a write event to come |
| DispatchInputs.OnlyPollSurvives | src/event_dispatcher.c:106-127 | an input on which the same callbacks are safe under poll, which passes over the freed slot, and fault under epoll |
| Epoll.ClosedAreErrors | src/event_dispatcher.c:106-112 | a sweep without a fault closes the descriptors of all error events and no others, in order |
| Epoll.ErrorsAre | src/event_dispatcher.c:107-112 | a descriptor is among those exactly when one of the events is an error on it |
| EpollInterest.KernelAgreesExactly | src/event_dispatcher.c:59-95 | over every run of drains and closes without a fault the map agrees with the kernel's interest, and that is the one asked for with its masks, if and only if every close of a registered descriptor is followed by a drained removal of it |
| EpollInterest.SweepRuns | src/event_dispatcher.c:96-128 | a sweep over epoll's events is such a run |
| EpollInterest.SweepAgreesExactly | src/event_dispatcher.c:96-128 | after a sweep without a fault map and kernel agree if and only if every error event on a descriptor registered at its turn is followed in the sweep by a drained removal of it |
| EpollInterest.ClosedIsOrphaned | src/event_dispatcher.c:107-112 | after a close the channel stays in the map, and on every run until it is removed nothing, not even an add for a later connection of the same number, makes the kernel watch that number |
| DispatchInputs.ErrorLeavesChannel | src/event_dispatcher.c:107-112 | an input on which map and kernel no longer agree, and on which adding the number again does nothing |
| Reactor.ExclusiveKept | src/event_loop.c:145-208 | no step breaks mutual exclusion, the owner's sole right to drain, or the tie between the flag and the drain |
| Reactor.LinearKept | src/event_loop.c:128-208 | no step breaks that the operations applied and then the pending ones are the history in lock order |
| Reactor.WakeupKept | src/event_loop.c:67-72 | no step leaves pending work that no thread, byte or drain on its way accounts for |
| Reactor.RunKeepsInv | src/event_loop.c:145-208 | the invariants hold after every run, and history and applied operations only grow |
| Reactor.Safety | src/event_loop.c:145-208 | on every interleaving one thread at most has the mutex, only the owner drains, the assertion on the flag never fails, the map is the fold of the applied operations, and the owner polls without a byte to read only over work that another thread is about to announce |
| Reactor.Guarded | src/event_loop.c:145-208 | list, flag, map and history change only in the hands of the thread that has the mutex |
| Reactor.AssertionIsChecked | src/event_loop.c:149-151 | the assertion is evaluated at every append, with the flag as the drain last set it |
| Reactor.Progress | src/event_loop.c:54-208 | every step that carries on work begun lowers a measure |
| Reactor.NoDeadlock | src/event_loop.c:54-208 | such a step exists exactly until all threads are idle and the owner polls with nothing to read |
| Reactor.RestIsDone | src/event_loop.c:54-208 | at rest every operation ever enqueued has been applied in order |
| Reactor.RunRecords | src/event_loop.c:145-174 | over every run the history, with the operation that the holder of the mutex is about to append, lists exactly the operations that threads came in with, in the order of the lock |
| Reactor.RestIsAllAsked | src/event_loop.c:145-208 | at rest exactly the operations asked for have been applied, in the order of the lock |
| Reactor.BytesConserved | src/event_loop.c:110-127 | over every run one byte is written for each append of another thread and one is taken by each read |
| Reactor.ReadsFollowReports | src/event_loop.c:118-127 | each report of the wake-up socket is followed by exactly one read before the next poll |
| Reactor.MayComeIn | src/event_loop.c:145-151 | an idle thread may come in with any operation whenever the mutex is free |
| Reactor.MayReturn | src/event_loop.c:67-72 | the poll may return without a wake-up |
| Reactor.AnyOrderPossible | src/event_loop.c:145-208 | whatever the other threads ask for, in any order, some run applies all of it in that order |
| Reactor.EveryRunSettles | src/event_loop.c:54-208 | however threads are scheduled, carrying on takes no more steps than the measure |
| Reactor.CanSettle | src/event_loop.c:54-208 | from every reachable state the work begun can be carried on to rest |
| Reactor.AgreesThroughout | src/event_loop.c:145-272 | while the history keeps to the rules, on every interleaving nothing faults and map and slots are those of the interest map after the operations applied so far |
| ThreadPools.Handshake | src/event_loop.c:292-316 | on every interleaving, spurious wake-ups included, each start returns that thread's own loop, never null, and never waits once the only signal has been sent |
| ThreadPools.ReturnReads | src/event_loop.c:313-315 | what a start returns is what it reads after giving up the mutex |
| ThreadPools.SpuriousPossible | src/event_loop.c:310-312 | the wait may end at any time without a signal |
| ThreadPools.StarterCanWait | src/event_loop.c:305-312 | a run on which the starter does wait |
| ThreadPools.WaitsAgain | src/event_loop.c:310-312 | woken for nothing before the loop is published, it tests and waits again |
| ThreadPools.NoDeadlock | src/thread_pool.c:15-28 | without a spurious wake-up some thread can go on exactly until all threads run and all starts have returned |
| ThreadPools.Progress | src/event_loop.c:292-316 | every step but a spurious wake-up lowers a measure |
| ThreadPools.PoolComesUp | src/thread_pool.c:15-28 | from every reachable state the pool can be started to the end |
| ThreadPools.Fair | src/thread_pool.c:30-42 | wherever the turn starts, k calls on n loops select each loop k/n times, rounded down or up |
| ThreadPools.ShareIs | src/thread_pool.c:30-42 | how often a loop is selected is fixed by how far ahead of the position it is |
| ThreadPools.ThreadPool.GetLoop | src/thread_pool.c:30-42 | the loop at the position is handed out and the position moves on, or the main loop when there are no threads |
| Buffers.Buffer.ExpandSpace | src/buffer.c:43-68 | the bytes to be read are the same and the requested space is there |
| Buffers.Buffer.Compact | src/buffer.c:49-57 | the forward copy in place keeps the bytes to be read |
| Buffers.Buffer.Grow | src/buffer.c:58-66 | the longer array holds the same bytes to be read |
| Buffers.Buffer.Append | src/buffer.c:70-77 | the new bytes are added at the end of the queue |
| Buffers.Buffer.SocketRead | src/buffer.c:86-108 | what arrives is added at the end of the queue, also where it overflows into the scratch array, and an error changes nothing |
| Text.IndexOf | src/buffer.c:113-118 | the pattern occurs at the place found and at none before it, and nowhere when none is found |
| Buffers.Buffer.Consume | src/lib_http.c:188-190 | the bytes are taken from the front of the queue |
| SendPath.DisableEffect | src/channel.c:16-35 | disabling as intended clears the write bit; as written it does nothing to it |
| SendPath.EnableKeepsOthers | src/channel.c:20-27 | enabling keeps the other bits |
| SendPath.DisableOthers | src/channel.c:28-35 | so does the intended disabling; the written one sets them all |
| SendPath.StepTakes | src/lib_tcp_server.c:86-174 | a step writes the first bytes offered, as many as the answer of write says, and keeps the rest in order |
| SendPath.WireIsTaken | src/lib_tcp_server.c:86-174 | over every run the wire grows by exactly the bytes that the answers of write say were taken |
| SendPath.ToldWhenNeeded | src/channel.c:20-35 | a send issues an update exactly when it turns interest on, a write exactly when it empties the output |
| SendPath.SendPathConserves | src/lib_tcp_server.c:86-174 | after any run of sends and writes, what the socket took and then the output buffer are all data accepted, and buffered output has write interest |
| SendPath.AllAccepted | src/lib_tcp_server.c:142-174 | until a direct write finds the peer gone, the data accepted are all data submitted |
| SendPath.InterestExact | src/lib_tcp_server.c:95-98 | with the intended clearing write interest is on exactly while output is buffered |
| SendPath.InterestSticks | src/channel.c:28-35 | as written, write interest once enabled stays on |
| SendPath.InterestLeftOn | src/channel.c:28-35 | a run after which the output is empty and interest still on |
| SendPath.InterestOffExactly | src/channel.c:28-35 | as written, from an idle connection interest is off after a run if and only if every send was empty, wholly taken by the direct write, or found the peer gone |
| SendPath.InterestAsked | src/event_dispatcher.c:69-75 | after any run the mask of the connection's events has read, and with the intended clearing has write exactly while output is buffered |
| SendPath.AllDelivered | src/lib_tcp_server.c:86-107 | once the socket keeps taking bytes all buffered output reaches it, in order, after as many writes as bytes at most |
| SendPath.StepIsTold | src/channel.c:20-35 | after each send or write the registrations that the connection has issued amount to its descriptor with its present events |
| HttpRequest.Step | src/lib_http.c:182-221 | a pass that moves eats at least two bytes and no more than there are |
| HttpRequest.Parse | src/lib_http.c:178-223 | the loop ends done, or stuck on input without a CRLF |
| HttpRequest.ParseAppend | src/lib_http.c:182-221 | parsing can stop for lack of input anywhere and be taken up again |
| HttpRequest.ArrivalOrderIrrelevant | src/lib_http.c:182-221 | however arrivals and passes of the loop body are interleaved, the outcome is that of parsing all the bytes at once |
| HttpRequest.SameRequest | src/lib_http.c:182-221 | two schedules that deliver the same bytes and finish end with the same request and the same bytes left |
| HttpRequest.CutExactly | src/lib_http.c:153-173 | the request line has its three words if and only if it has two spaces |
| HttpRequest.CutParts | src/lib_http.c:153-173 | the words are the parts of the line at its first two spaces, each up to a NUL in it |
| HttpRequest.WaitsExactly | src/lib_http.c:182-221 | parsing runs out of input if and only if there is no request line yet, or it has its spaces and the lines behind it are all headers and fit the array |
| HttpRequest.LoopEndsExactly | src/lib_http.c:182-221 | the loop ends if and only if the lines in the buffer have a request line with fewer than two spaces, a line without ": " after it, or more headers than the array holds |
| HttpRequest.SpinsWithoutCrlf | src/lib_http.c:182-221 | an input on which it does not end |
| HttpRequestLaws.RequestRoundTrip | src/lib_http.c:148-223 | parsing a printed request with anything behind it gives back its parts in order and eats exactly what was printed if and only if the parts stay clear of the separators and the headers fit |
| HttpRequestLaws.HeadersRoundTrip | src/lib_http.c:196-219 | the same for the header lines, from any number of headers already stored |
| HttpRequestLaws.EndEatsTwo | src/lib_http.c:214-218 | any line without ": " ends the headers, and all of it but two bytes stays in the buffer |
| HttpRequestLaws.HeaderIsCut | src/lib_http.c:199-213 | a header line is cut at its first ": ", and both sides are stored up to a NUL |
| HttpRequestLaws.ColonWithoutSpace | src/lib_http.c:214-218 | an input: a header without the space ends the request, and its rest is taken for the next one |
| HttpRequest.CapacityIsRoom | src/lib_http.c:23 | the bytes allocated are the room of that many headers, for pointers of 4 and of 8 bytes |
| HttpRequestLaws.PipelineRoundTrip | src/lib_http.c:41-54 | parsing and resetting in turn recovers a whole concatenation of printed requests, whatever follows it, if and only if all of them are printable |
| HttpResponse.ResponseFraming | src/lib_http.c:113-144 | the first empty line of the output ends the head, and what follows is exactly the body |
| Decimals.DecimalRoundTrip | src/lib_http.c:126 | the printed number reads back, and has no leading zero |
| HttpResponse.StatusRoundTrip | src/lib_http.c:116-120 | a client reads the version, the code and the message from the first line (the code is an int and so has fewer than 21 digits) |
| HttpResponse.HeadTells | src/lib_http.c:122-141 | the lines of the head say whether the server asks to close, otherwise the length of the body, and then the headers in order |
| HttpResponse.ResponseRoundTrip | src/lib_http.c:113-144 | a keep-alive response is cut out of the stream with its head and body, whatever follows it |
| HttpResponse.LengthMustFit | src/lib_http.c:116-127 | that bound on the body is needed: for a length that does not fit the scratch array the line loses its end (no buffer of the program, whose sizes are of type int, can hold such a body) |
| HttpResponse.StreamSplits | src/lib_http.c:113-144 | concatenated keep-alive responses split into their heads and bodies in order |
| ConnectionModel.RespondIsClean | src/server.c:6-39 | every response has no stray CRLF and is not empty |
| ConnectionModel.Routing | src/server.c:20-36 | a query changes nothing, and the code, the body and the closing flag are those of the path |
| ConnectionModel.ReadDecides | src/lib_tcp_server.c:68-84 | a read closes exactly when it is empty, spins exactly when the lines do not suffice, and answers one request exactly when the server runs on |
| ConnectionModel.ReadableKeepsInv | src/lib_tcp_server.c:68-84 | a read, a parsed request and its response keep the order of the stream |
| ConnectionModel.RunKeepsInv | src/lib_http.c:225-254 | so does every run |
| ConnectionModel.EndToEnd | src/lib_http.c:225-254 | on every run the bytes written and then those buffered are the encoded responses to the requests served, in order, and those requests are the first of the bytes received |
| ConnectionModel.OneAnswerPerRead | src/lib_http.c:225-254 | no run serves more requests than it has reads |
| Answering.TruncatedWaits | src/lib_http.c:182-221 | a printed request that has not arrived whole leaves the parser waiting |
| Answering.AnsweredExactly | src/lib_http.c:225-254 | for a client that prints requests and sends them in any pieces, the server still runs if and only if for every j the first j reads brought at least the first j requests, and then has answered exactly the first as many as it had reads; otherwise it spins |
| Answering.SecondWaits | src/lib_http.c:225-254 | of two requests in one read only the first is answered, and the second is left whole in the buffer |
| Answering.NothingAfterShutdown | src/lib_http.c:247-249 | after the half-close the socket gets nothing more on any run |
| Answering.DeliveredExactly | src/lib_http.c:245-249 | the responses to the requests served can all reach the socket if and only if there was no half-close or nothing is buffered |
| Answering.ClosingReadExactly | src/lib_http.c:243-249 | the response to a request that asks to close can reach the socket whole if and only if the connection was idle and the direct write took all of it |
| Answering.CloseCutsOff | src/lib_http.c:243-249 | an input: the direct write would block, the half-close follows, and no run after it writes a byte |
| Answering.LaterClosesAreLost | src/channel.c:28-35 | with the clearing as written, once a response was left over the response to every later request that asks to close is cut off |
| Splitting.UnknownEndsSplitting | src/server.c:32-36 | behind a 404 answer nothing can be split, whatever it is |
| Splitting.ClientSplitsStream | src/lib_http.c:113-144 | on every run without a fault the bytes written and buffered split into exactly the heads and bodies of the responses up to the first unknown path, and so into one for each request served if and only if all paths were known |
| Splitting.ClientLearns | src/server.c:20-36 | each message in it carries code 200, its message and the page of the request in its place |
| Splitting.UnknownTells | src/server.c:32-36 | the answer to an unknown path is read as 404 |
| Splitting.Answers | src/lib_http.c:113-144 | two answers, byte for byte |
| Composition.OnlyItsOwn | src/event_loop.c:210-272 | what is registered for a descriptor depends on its own operations, whatever is drained in between |
| Composition.TableSeesConnection | src/event_loop.c:145-272 | on every interleaving of the reactor and every run of the connection, once its operations are drained exactly one slot of the poll table holds its descriptor, with the mask of its events, and none after its close; with the intended clearing that mask has write exactly while output is buffered |
| Composition.TableSeesConnectionAtRest | src/event_loop.c:145-272 | the same at rest, in terms of what the threads asked for |
| ConnectionModel.ClientSeesResponsesInOrder | src/lib_tcp_server.c:68-107 | a client that prints requests sees at any moment of a run without a fault a prefix of the responses to them, in their order |
| HttpServer.RequestRecord.AddHeader | src/lib_http.c:49-54 | the header is stored behind the others |
| HttpServer.RequestRecord.Reset | src/lib_http.c:41-48 | the record is that of a fresh request |
| HttpServer.RequestRecord.ProcessStatusLine | src/lib_http.c:148-176 | the record holds the three words of the line, or the assertion fails |
| HttpServer.ParseHeader | src/lib_http.c:196-219 | one header line is stored and consumed, ends the headers, or finds the array full |
| HttpServer.ParseHttpRequest | src/lib_http.c:178-223 | the loop over buffer and record does what parsing the contents does |
| HttpServer.EncodeBuffer | src/lib_http.c:113-144 | the encoding is appended to the output |
| HttpServer.Connection.SendData | src/lib_tcp_server.c:142-174 | the object's socket, buffer, interest and registrations are those of the send path, and the count returned is that of the bytes written directly |
| HttpServer.Connection.SendBuffer | src/lib_tcp_server.c:175-181 | the same for the contents of a buffer, which is then empty |
| HttpServer.Connection.HandleWrite | src/lib_tcp_server.c:86-107 | the object takes the step of the connection's machine for a writable socket |
| HttpServer.Connection.OnMessage | src/lib_http.c:225-254 | one request is parsed, answered, followed by the half-close if it asked for it, and reset; or the loop spins or breaks |
| HttpServer.Connection.HandleRead | src/lib_tcp_server.c:57-84 | the object takes the step of the connection's machine for a readable socket, unregistering at the end of the stream |

## Left out

- Sockets, `accept`, `readv`, `write`, `poll` and `epoll_wait`: what they answer is a parameter of the step, and any answer is allowed.
- Failure of `malloc` and `realloc`, frees, leaks, logging, thread names, `main` and the quit flag.
- C integer widths: fields of the serializer and the maximum of pack2.c wrap as written, other sizes and counters are unbounded.
- Rounding inside `long double`, and the narrowing of a decoded number to `float` or `double`: numbers are exact.
- FloatCodecLaws.ErrorBound: speaks of numbers whose exponent is in range; outside it `ExponentWraps` says what becomes of two of the fields, and the sign may be overwritten.
- Serializer.UnpackFormat: where a field reaches over the end of the buffer the program reads on; the model stops and reports it, so nothing is said about what it would read. The overflow of the signed maximum of pack2b.c is not modelled either.
- SerializerLaws.MaximumCutsOneString: says what is stored, not whether the caller's array has room for it.
- HttpServer.Connection.HandleRead: after a failed assertion or a full header array the program is gone, and what is left of the request and its input is not stated.
- HttpServer.Connection.OnMessage: whether the request asks to close is a parameter, since the prefix comparisons of `http_request_close_connection` are left out.
- EventLoops.EventLoop.HandlePendingChannel: the map stores a channel's descriptor and events as they stand when they are drained, not a pointer; the program uses only the descriptor of a stored channel.
- EventLoops.EventLoop.PollDispatch: a callback is the list of operations that get drained while it runs; what it does to its connection is modelled in `HttpServer.dfy`, and joined to the loop by its operations in `Composition.dfy`.
- Reactor.Safety: the operations of one channel are taken as they stand when they are enqueued, the wake-up socket is a byte counter without bound, and its descriptor is taken to stay registered.
- HttpResponse.ResponseFraming: the body's length has to fit the 32-byte array (fewer than 10^14 bytes), as `LengthMustFit` says, and the texts are the bytes of C strings without NUL.
- Answering.AnsweredExactly: a write after the half-close may raise a signal that ends the program, as nothing in it ignores SIGPIPE; the server then does not run on, and the same holds for the other theorems about runs with a half-close.
- ConnectionModel.EndToEnd: a write after the half-close is answered as by a peer that is gone; the signal that the kernel may send with that answer is not modelled.
- The 400 response of `src/lib_http.c:231-235` is never sent, since the parser never returns 0.
- `http_request_get_header` and `http_request_close_connection`: prefix comparisons in one branch.
- EpollInterest.KernelAgreesExactly: the kernel's interest is changed by this loop's calls only; descriptors duplicated elsewhere, which would outlive a close in it, are not modelled.
- `tcp_server_init`, the acceptor and the wiring of callbacks: plumbing.
- `bgnet_examples/ieee754.c` repeats the codec, `bgnet_examples/pack.c` is a simpler fixed-point version; the chat, echo and lookup programs are plumbing.
