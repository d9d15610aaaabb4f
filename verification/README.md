# VirtualBox internal networking: the shared ring buffer, verified

A Dafny model of the code in VirtualBox's shared headers that has the most state and arithmetic, and proofs of what
that code is for. The centre is `INTNETRINGBUF`, the ring through which network frames pass between ring 0 and ring 3
without locks: one writer, one reader, three cursors, eight-byte headers whose signed displacement lets a header stand at
the end of the buffer while its payload stands at the start.

The ring is modelled three times, and the three are tied together.

- `RingBuffer.dfy` is the code as it stands: a class with the cursors and counters as fields, updated in place over the
  byte array of an interface buffer. Every method is proved equal to a function of the old state.
- `RingModel.dfy` holds those functions. A ring is a value whose chain of frames is read back *from the header bytes*
  (`Walk`, in `Chain.dfy`). `Allocation`, `Delivery`, `Splitting` and `Writing` prove what the operations do to the queue
  of frames the bytes stand for.
- `Protocol.dfy` is a step system of the writer and the reader in any interleaving: every load of a cursor, every byte
  stored or loaded, every cursor published is one atomic step, and each side acts on what it saw earlier. `Safety.dfy`
  proves the invariant and the theorems over whole runs. `AtomicRuns.dfy` proves that the operations of the first two
  models are runs of this one.

Around the ring: `Header` (the header's bytes), `Geometry` (circular distance, frame extents), `Reading` (what a loop of
reads gets), `ShortWrites` (frames whose size is only guessed when they are allocated), `TwoRings` and `NetBuf` (two
rings in one block, both in use at once), `ScatterGather` (`IntNetSgRead`, `IntNetSgReadEx`), `SwitchWrite` and
`SwitchRuns` (the switch's use of all of these together), `Closing` (runs into the one case that breaks a ring). Beside
it: `TlsRef` (the thread-local reference counts of `VBoxVideo3D.h`) and `PointerShape` (the size of a mouse pointer
request).

## What turned out

**One reservation breaks the ring, and only one.** A frame that fits exactly up to `offEnd` while the reader stands at
`offStart` moves `offWriteInt` onto the read cursor, so a full ring looks empty. The comment at `intnet.h:41-43` says
the writer never uses the last free byte; the first branch of the allocator (`intnetinline.h:421-425`, `658-662`) does not
check it. `Allocation.FillsRing` names this case. `ReservationLeavesASlot` shows that it is exactly the case in which the
cursors meet, however stale the writer's view of the reader is; `Safety.StepKeepsInv` that it is exactly the step that
breaks the protocol's invariant; `Writing.Delivered` what a caller is left with. It does happen: `Closing.ClosingIsReached`
gives a run to it from any empty ring whose cursors stand at its start, with a committed frame not yet read, and
`WritesAreLost` two writes that succeed and leave a ring that says it is empty. All statements over runs leave out this
step and no other.

**`IntNetSgReadEx` copies the wrong bytes** when a read starts inside a segment and goes on beyond it: after the first
piece the loop is left without moving to the next segment (`intnetinline.h:225-228`). `RightForAllBytesIffLucky` gives
the exact condition under which it is right, `ReadsTwice` what comes instead, `LuckyIff` puts it in a caller's terms,
`UnluckyGoesWrong` gives a wrong result for every other request (`WrongBytes` the smallest), and `SgReadExAdvancing` a
version with the missing increment that is right for every request in range.

**The sanity macro of the ring is too weak** (`intnet.h:101-104`). `MacroOrderTooWeak` says which disordered rings it lets pass.

**A short commit may deliver more than was used.** `IntNetRingCommitFrameEx` writes the new length only if a slot can be saved
(`intnetinline.h:611-620`). `CommitExDelivers` says exactly when the reader sees the length the caller gave.

**A destructor can run twice**, if and only if an object is marked for destruction after its destruction has begun and its
count then reaches zero again (`TlsRef.DestructorRuns`). `DestroyedTwice` is such a run, and it meets every assertion of the
macros.

**A reader that does not look at frame types gets padding.** `IntNetRingReadAndSkipFrame` hands over padding frames, and
for a frame of no bytes its result is the one for an empty ring. `Reading.ReadAllIsQueueIff` and
`Reading.UntilZeroIsQueueIff` say exactly when a loop over it gets the queue.

**A pointer request is too small** exactly when the colour data reaches 4 GB (`PointerShape.SizeCoversIff`).

## Model

| member | source | states |
|---|---|---|
| Header.RtAlign32IsExact | include/iprt/cdefs.h:1450-1463 | `RT_ALIGN_32` rounds up without wrapping exactly for values up to 0xFFFFFFF8; beyond that it yields 0 |
| Header.HdrRoundTrip | include/VBox/intnet.h:214-226 | a 24-bit length, an 8-bit type and a signed displacement survive being stored in the header's eight bytes |
| Header.HdrWords | include/VBox/intnet.h:214-226 | in memory a header is two little-endian words: length plus 2^24 times the type, and the displacement in two's complement |
| Header.HdrIsOntoBytes | include/VBox/intnet.h:214-226 | and every eight bytes are the encoding of what they decode to, so reading a header loses nothing |
| Geometry.FrameExtent | include/VBox/intnetinline.h:553-562 | a frame that fits in the room given ends at a slot of the ring exactly its own span further round, wrapped or not |
| Geometry.FrameParts | include/VBox/intnet.h:205-225 | a header and its payload never share a byte, and both lie within the frame's span |
| Geometry.NextIsSlot | include/VBox/intnetinline.h:380-384 | the reader, aligning the whole sum, and the writer, aligning the length, find the same next header, and it is a slot of the ring |
| Chain.WalkSame | include/VBox/intnetinline.h:380-384 | which frames lie between two cursors depends on the bytes between them and on nothing else |
| Chain.WalkJoins | include/VBox/intnetinline.h:380-384 | two chains of headers in a row make one chain |
| Chain.WalkSplits | include/VBox/intnetinline.h:380-384 | conversely, a chain that another leads into is the other plus the rest |
| Allocation.ReservationLeavesASlot | include/VBox/intnetinline.h:416-479 | with any stale read cursor: the reservation ends on the real read cursor exactly when the reader stands at `offStart` and the frame fits exactly to `offEnd`; otherwise at least 8 bytes stay free before the reader, and the frame fits its span |
| Allocation.SizeOkIsExact | include/VBox/intnetinline.h:432 | the size precondition used throughout is exactly the asserted one: no cursor positions lead to a reservation whose length the 24-bit field cuts off |
| Allocation.ReservedIffPlace | include/VBox/intnetinline.h:416-485 | a frame is refused exactly if neither behind the writer nor at the start of the ring is there a contiguous place that leaves a byte free; the closing case is the only reservation made without such a place |
| Allocation.TailComesFirst | include/VBox/intnetinline.h:416-459 | the place right behind the header is taken whenever it holds the frame, the start of the ring exactly if it does and the tail does not |
| Allocation.LostRaceTakesNothing | include/VBox/intnetinline.h:426-427 | a writer whose view of the private cursor is out of date is told of the race exactly if there was a place, and the ring is as it was |
| Allocation.EmptyRingTakesHalf | include/VBox/intnetinline.h:416-459 | the frames an empty ring accepts wherever its cursors stand are exactly those that take, with header, at most half the capacity rounded up to a slot |
| Allocation.BytesAreConserved | include/VBox/intnetinline.h:262-315 | readable + allocated + writable + 1 is the capacity exactly when the three cursors are in circular order; neither query goes below zero |
| Allocation.ReservationWithinWritable | include/VBox/intnetinline.h:262-269 | a reservation that does not close the ring takes from `GetWritable` exactly the frame's span, skipped slack included |
| Allocation.MacroOrderTooWeak | include/VBox/intnet.h:101-104 | the sanity macro accepts every ordered ring, and the disordered ones it accepts are exactly those with C < R <= I |
| Delivery.AllocAppends | include/VBox/intnetinline.h:404-486 | an allocation on a ring in order adds exactly its frame to the allocated chain and leaves the queue alone; a refusal changes a counter only; the closing one destroys the chain; it never reports a race |
| Delivery.FillIsPrivate | include/VBox/intnet.h:58-62 | a third party filling in any frame not yet committed changes neither what is queued nor any header |
| Delivery.CommitDelivers | include/VBox/intnetinline.h:541-567 | a commit moves the first allocated frame, and no other, to the end of the queue, and counts it and its bytes |
| Delivery.SkipTakesFirst | include/VBox/intnetinline.h:370-391 | a skip takes exactly the first frame off the queue, takes at least 8 bytes off what is readable, and does not pass the commit cursor |
| Splitting.SplitTiles | include/VBox/intnetinline.h:597-620 | the kept frame and the padding frame, possibly of length zero, tile the frame they replace and lead to the same next slot, wrapped or not |
| Splitting.SplitInPlace | include/VBox/intnetinline.h:611-620 | the split turns the first allocated frame into two and leaves the queue and every later allocated frame as they were |
| Splitting.CommitExDelivers | include/VBox/intnetinline.h:582-626 | with n the caller's length, eight more for a GSO frame: the reader gets the frame's first n bytes if the aligned sizes differ and all of it otherwise; the cursors move as in a plain commit; the byte counter always adds n |
| ShortWrites.ShortWriteDelivers | src/VBox/Devices/Network/DrvIntNet.cpp:390-396 | a plain frame allocated by a guess, filled where the allocation says and committed in its real length arrives at the end of the queue, starting with exactly these bytes |
| ShortWrites.ShortGsoWriteDelivers | src/VBox/Devices/Network/DrvIntNet.cpp:390-396 | the same of a GSO frame, whose data start with the context and then these bytes |
| Writing.WriteDelivers | include/VBox/intnetinline.h:629-733 | from any ring with no uncommitted frames, a write (allocate, fill, commit) delivers the frame at the end of the queue, or changes only the overflow counter, or, in the closing case, leaves an empty queue; with the return code of each |
| Writing.WriteCounts | include/VBox/intnetinline.h:674-732 | the frame and byte counters count successes only, the overflow counter failures only |
| Closing.ClosingIsReached | include/VBox/intnetinline.h:421-425 | from any empty ring with its cursors at the start, and any first frame that leaves room for a second header, a run leads to the closing step, the first frame committed and unread |
| Closing.WritesAreLost | include/VBox/intnetinline.h:658-678 | two writes that both report success, after which nothing is readable and the queue is empty |
| Closing.SmallRingCloses | include/VBox/intnet.h:41-43 | a ring of 32 bytes and two frames of eight: the free bytes are used up to the last |
| Reading.DrainTakesAll | include/VBox/intnetinline.h:292-391 | reading until the ring says it is empty terminates, yields the whole queue in order, and stops exactly on the commit cursor |
| Reading.SendingMeans | src/VBox/Devices/Network/SrvIntNetR0.cpp:3752-3797 | the switch's loop stops at the first frame that is plain, or has a valid context, and finds the network busy; before it every plain frame is sent, a GSO frame exactly if its context is valid, and the other GSO frames are counted; without GSO frames what is sent is the queue up to there |
| Reading.SentOfSum | src/VBox/Devices/Network/SrvIntNetR0.cpp:3752-3797 | frames are sent in the order of the queue, each on its own merits |
| Reading.QueueHoldsFrames | include/VBox/intnetinline.h:376-377 | a queue holds plain and GSO frames only |
| Reading.ReadAllIsQueueIff | src/VBox/Devices/Network/testcase/tstIntNetR0.cpp:309-313 | a loop over `IntNetRingReadAndSkipFrame` while there is more to read gets the queue exactly if no pending frame is padding |
| Reading.UntilZeroIsQueueIff | include/VBox/intnetinline.h:736-775 | a loop over it until it returns 0 gets the queue and leaves nothing exactly if every pending frame is no padding and has a byte, but for padding of no bytes at the very end |
| Safety.StepKeepsInv | include/VBox/intnetinline.h:370-626 | every atomic step of writer or reader, on any stale snapshot, keeps the invariant (chains from R to C and from C to I, what was sent = what was got + what is queued) if and only if it is not the closing reservation |
| Safety.StoresAreSafe | include/VBox/intnetinline.h:404-626 | no step stores to a byte that is committed and unread, or outside the ring; and no byte changes other than the one stored to |
| Safety.LoadsAreSafe | include/VBox/intnetinline.h:755-761 | the reader loads header and payload bytes of committed frames only |
| Safety.SourceIsAllRead | include/VBox/intnetinline.h:755-761 | the bytes that row speaks of are all a step reads: on rings that agree there it leaves the reader with the same |
| Safety.ReachedStepsAreSafe | include/VBox/intnetinline.h:292-775 | after any run from an empty ring, every step there is to take stores and loads only where the two above say |
| Safety.ExchangeNeverFails | include/VBox/intnetinline.h:416-485 | after any run from an empty ring, however long the writer took between its loads and the exchange, it succeeds: a reservation ends in a header being stored or in the overflow counter, never in a lost race |
| Safety.ClosingBreaks | include/VBox/intnetinline.h:421-426 | the closing reservation puts the private cursor on the read cursor and the invariant is lost |
| Safety.GatherKeeps | include/VBox/intnet.h:58-62 | data gathered into any frame handed out, even while another header is half stored or a commit is under way, keeps the invariant |
| Safety.GatherIsOpen | include/VBox/intnet.h:58-62 | outside a commit every payload byte of every allocated frame can be filled in, but for the one whose header is being stored |
| Safety.PublishReadKeeps | include/VBox/intnetinline.h:767-773 | the frame read byte by byte is the first frame of the queue whatever the writer did meanwhile, and publishing the read cursor removes exactly it |
| Safety.SlotsInOrder | include/VBox/intnetinline.h:380-384 | of two frames in a chain the later begins where the earlier ends or beyond |
| Safety.RunKeepsInv | include/VBox/intnetinline.h:404-775 | the invariant holds after any run of any interleaving without the closing step |
| Safety.FirstInFirstOut | include/VBox/intnet.h:38-62 | after any such run from an empty ring, the frames got are a prefix of the frames committed, types, lengths and bytes, across any number of wraps, and the rest is exactly what the headers from R to C still lead to |
| Safety.RunStaysInside | include/VBox/intnetinline.h:404-775 | no run changes a byte outside the ring's own area |
| AtomicRuns.AllocIsRun | include/VBox/intnetinline.h:404-486 | an allocation in one go is a run: two loads, the exchange, eight header bytes |
| AtomicRuns.CommitIsRun | include/VBox/intnetinline.h:541-567 | so is a commit |
| AtomicRuns.CommitExIsRun | include/VBox/intnetinline.h:582-626 | so is a short commit: padding header, own header, publish |
| AtomicRuns.WriteIsRun | include/VBox/intnetinline.h:639-733 | so is a write of either type, refused or not, its payload copied at once or gathered in pieces over each other; the frame it records as sent has exactly the bytes they make up |
| AtomicRuns.ReadIsRun | src/VBox/Devices/Network/SrvIntNetR0.cpp:3752-3797 | so is one turn of a consumer that passes over padding: next frame, its bytes, skip |
| AtomicRuns.StoresComplete | include/VBox/intnetinline.h:430-433 | storing the rest of a header byte by byte gives the header stored at once |
| AtomicRuns.GathersFill | include/VBox/intnet.h:58-62 | gathering the payload byte by byte comes to one copy |
| AtomicRuns.LoadsComplete | include/VBox/intnetinline.h:758-761 | loading a frame byte by byte gives its data |
| AtomicRuns.FrameGoesThrough | include/VBox/intnetinline.h:629-775 | for every frame an empty ring has a place for there is a run that writes it and reads it, and the reader gets exactly these bytes |
| RingBuffer.WriteInOneGo | include/VBox/intnetinline.h:653-733 | a write, which publishes the cursor it reserved, ends in the same bytes, cursors and counters as allocate, copy, commit, which computes it from the header |
| RingBuffer.RingBuf.GetWritable | include/VBox/intnetinline.h:262-269 | no 32-bit intermediate underflows, and the result is the amount `BytesAreConserved` accounts for |
| RingBuffer.RingBuf.HasMoreToRead | include/VBox/intnetinline.h:278-283 | true exactly if something is readable |
| RingBuffer.RingBuf.GetReadable | include/VBox/intnetinline.h:308-315 | as for GetWritable |
| RingBuffer.RingBuf.GetNextFrameToRead | include/VBox/intnetinline.h:292-299 | NULL exactly if nothing is readable; otherwise the header of the first pending frame |
| RingBuffer.RingBuf.AllocateFrameInternal | include/VBox/intnetinline.h:404-486 | status, pointers and whole new state of the ring are those of the model's allocation, in all branches |
| RingBuffer.RingBuf.AllocateFrame | include/VBox/intnetinline.h:499-502 | the same, for plain frames |
| RingBuffer.RingBuf.AllocateGsoFrame | include/VBox/intnetinline.h:516-528 | the same, with the GSO context copied in and the pointer behind it |
| RingBuffer.RingBuf.CommitFrame | include/VBox/intnetinline.h:541-567 | the model's commit: one cursor and two counters change |
| RingBuffer.RingBuf.CommitFrameEx | include/VBox/intnetinline.h:582-626 | the model's short commit, with the split in the bytes |
| RingBuffer.RingBuf.WriteFrame | include/VBox/intnetinline.h:639-733 | status and whole new state are those of allocate, copy, commit |
| RingBuffer.RingBuf.SkipFrame | include/VBox/intnetinline.h:370-391 | the model's skip: only the read cursor changes |
| RingBuffer.RingBuf.ReadAndSkipFrame | include/VBox/intnetinline.h:746-775 | an empty ring changes nothing and gives 0; otherwise the destination starts with exactly the frame's bytes, keeps the rest, and the ring is as after a skip |
| RingBuffer.RingBuf.SendFrames | src/VBox/Devices/Network/SrvIntNetR0.cpp:3752-3797 | the switch's loop deals with the queue in order up to the first frame the network is too busy to take, which stays first in the ring; what is sent and counted is what `SendingMeans` speaks of; otherwise it stops on the commit cursor |
| RingBuffer.RingBuf.ReadFrames | src/VBox/Devices/Network/testcase/tstIntNetR0.cpp:309-313 | the test's loop gets what `ReadAllIsQueueIff` speaks about |
| NetBuf.NetBuf.Init | include/VBox/intnetinline.h:788-818 | the two areas lie one behind the other, behind the structure, inside the block; each area that is not empty and ends within reach of a signed displacement, and no other, makes an empty ring in the protocol's initial state; the two do not overlap |
| TwoRings.OtherRingUndisturbed | include/VBox/intnet.h:116-153 | whatever run happens on one ring, the other ring of the block keeps its invariant and its queue, at whatever point its own writer and reader are: headers half stored, frames half read |
| TwoRings.MoveKeepsBoth | include/VBox/intnet.h:116-153 | with writers and readers at work on both rings, every step of any of the four keeps both invariants |
| TwoRings.RunOnRecv | include/VBox/intnet.h:116-153 | every run on one ring alone is a run of both with the other at rest |
| TwoRings.BothFirstInFirstOut | include/VBox/intnet.h:116-153 | after any interleaving of all four, closing steps excepted, what was got from each ring is a prefix of what was committed to it, and the rest is in it |
| ScatterGather.SgRead | include/VBox/intnetinline.h:173-191 | the destination gets the concatenation of all segments and no other byte of it changes |
| ScatterGather.ConcatAt | include/VBox/intnetinline.h:173-191 | in the concatenation every byte of every segment lies behind the sizes of all segments before its own |
| ScatterGather.SgReadEx | include/VBox/intnetinline.h:202-252 | never looks past the last segment; the destination gets exactly what `RightForAllBytesIffLucky` speaks about, and no other byte of it changes |
| ScatterGather.LuckyIsSlice | include/VBox/intnetinline.h:202-252 | a read that starts at a boundary, or ends inside the segment it starts in, is the slice of the concatenation |
| ScatterGather.UnluckyGoesWrong | include/VBox/intnetinline.h:225-228 | for any other read there are contents of the same segments for which it is not |
| ScatterGather.ReadsTwice | include/VBox/intnetinline.h:216-229 | what such a read gives: the rest of the segment it starts in, then that same segment again from its start, and on from there |
| ScatterGather.RightForAllBytesIffLucky | include/VBox/intnetinline.h:202-252 | for given segment lengths, offset and count: right for all contents exactly under that condition |
| ScatterGather.LuckyIff | include/VBox/intnetinline.h:194-201 | that condition for a caller: the offset is the total length of some segments from the first on, or the whole range lies in one segment |
| ScatterGather.WrongBytes | include/VBox/intnetinline.h:225-228 | two bytes and one, read two from the second on: the first segment's byte comes twice |
| ScatterGather.SgReadExAdvancing | include/VBox/intnetinline.h:194-201 | with the segment index moved on after a first piece: the slice, for every request in range, segments of no bytes included |
| ScatterGather.ReadExFromStart | include/VBox/intnetinline.h:167-252 | a read of everything from offset 0 gives what `IntNetSgRead` gives |
| ScatterGather.SeekInRange | include/VBox/intnetinline.h:213-234 | the seek stops at a segment in use, except for a request for no bytes at the very end behind a segment that has some |
| SwitchWrite.RingWriteFrame | src/VBox/Devices/Network/SrvIntNetR0.cpp:2582-2601 | the gathered frame, its destination address patched and its GSO context in front, is delivered whole at the end of the queue, or only the overflow counter moves, or the ring closes and the queue is lost; in bytes, cursors and counters it is a write of the patched frame |
| SwitchRuns.RingWriteIsRun | src/VBox/Devices/Network/SrvIntNetR0.cpp:2582-2601 | all of it is a run of the protocol: reserve, store the header, gather context, frame and new address over the frame's first bytes, commit |
| TlsRef.RefObj.constructor | include/VBox/VBoxVideo3D.h:85-89 | a new object has one reference and is functional |
| TlsRef.RefObj.AddRef | include/VBox/VBoxVideo3D.h:93-96 | one reference more, nothing else |
| TlsRef.RefObj.Release | include/VBox/VBoxVideo3D.h:100-107 | with a destructor that takes and drops references to the same object in balance, re-entering this method, the caller sees the count drop by one, or the object destroyed and the count at zero |
| TlsRef.RefObj.MarkDestroy | include/VBox/VBoxVideo3D.h:109-111 | only the state changes |
| TlsRef.Tsd.SetCurrent | include/VBox/VBoxVideo3D.h:125-136 | this thread's slot and no other is set; the old object loses one reference and the new one gains one, unless they are the same; on all objects at once it is the operation the run theorems speak of |
| TlsRef.Tsd.GetCurrentFunctional | include/VBox/VBoxVideo3D.h:115-123 | the result is the slot's new value, NULL or functional; an object that is not functional is let go of; again the operation of the run theorems |
| TlsRef.DestructorRuns | include/VBox/VBoxVideo3D.h:93-111 | over every run of matched takes and drops: the destructor has run exactly if the count hit zero, and more than once exactly if the object was marked afterwards and the count hit zero again; the state is DESTROYING exactly if the count hit zero and no mark followed |
| TlsRef.DestroyedTwice | include/VBox/VBoxVideo3D.h:93-111 | release, take, mark, release: a matched run that meets the assertion of AddRef and runs the destructor twice |
| TlsRef.FunctionalIff | include/VBox/VBoxVideo3D.h:85-111 | over every run of matched takes and drops an object is functional exactly if it was never marked and its count never hit zero |
| TlsRef.MarkedIsLetGo | include/VBox/VBoxVideo3D.h:109-123 | after every run, a thread that asks for its functional object gets its current one if nobody has marked it; if somebody has, it gets none and has none any more |
| TlsRef.MarkedObjectIsDropped | include/VBox/VBoxVideo3D.h:109-123 | such a run: one object, one thread; the mark costs the thread its object and the object a reference |
| TlsRef.BalancedGrows | include/VBox/VBoxVideo3D.h:103-106 | what is asked of a destructor lets it nest takes and drops and do one after the other in any way |
| TlsRef.SetIsSound | include/VBox/VBoxVideo3D.h:125-136 | setting a thread's current object keeps every object's count equal to the references held plus the threads that have it as their current one |
| TlsRef.StepIsSound | include/VBox/VBoxVideo3D.h:85-136 | so does every other operation |
| TlsRef.RunIsSound | include/VBox/VBoxVideo3D.h:85-136 | so does every run, for any number of objects and threads |
| TlsRef.CurrentIsAlive | include/VBox/VBoxVideo3D.h:115-123 | after every run no thread's current object has been destroyed, and what a thread gets as its functional object is its current one and functional |
| PointerShape.SizeCoversIff | include/VBox/VMMDev.h:396-403 | the size computed covers the two masks exactly if 4 * width * height fits 32 bits; then it is their exact end, or the minimum |
| PointerShape.LacksMultiples | include/VBox/VMMDev.h:396-403 | above that limit, while the mask fits, the size lacks exactly the whole multiples of 4 GB |
| PointerShape.NothingWraps | include/VBox/VMMDev.h:399-400 | under that condition the mask size and the colour size computed in 32 bits are the true ones, for any width (for height 0 even where width + 7 wraps) |
| PointerShape.PixelsInside | include/VBox/VMMDev.h:365-375 | every AND-mask byte and all four colour bytes of every pixel have their place, the two masks do not meet, the second starts on the next multiple of four |
| PointerShape.PixelsInOrder | include/VBox/VMMDev.h:365-375 | mask rows start on a byte of their own and take a bit a pixel, colour rows follow each other without a gap, and the data ends behind the last pixel |
| PointerShape.PixelsApart | include/VBox/VMMDev.h:374-375 | no two pixels share a colour byte |
| PointerShape.CursorFits | include/VBox/VMMDev.h:387-403 | so every byte of every pixel lies inside a request of the computed size |

## Left out

- Memory ordering: the atomic steps are sequentially consistent. What the unordered atomic reads allow beyond that is not modelled.
- More than one concurrent writer: only that a failed exchange returns VERR_WRONG_ORDER and changes nothing.
- RingBuffer.RingBuf.AllocateFrameInternal: takes sizes only for which the length the header holds is the length asked for, as the code asserts (`SizeOkIsExact`); the truncation in builds without assertions is not modelled. The minimum frame size it also asserts is not required.
- RingBuffer.RingBuf.WriteFrame: the buffer written from is copied out before the ring changes, so a source inside the ring is not modelled.
- Rings that reach beyond 2^31: `offFrame` is a signed 32-bit field, and the displacement of a wrapped frame would not fit it. On a 32-bit host, sizes whose sum with the header wraps `size_t` are not modelled either.
- Statistics counters are unbounded; their 64-bit wrap, profiling, logging and the poisoning of read frames are not modelled.
- Safety.GatherKeeps: does not cover gathering into a frame whose commit is already under way.
- Safety.FirstInFirstOut: leaves out the closing reservation, with which the statement is false (`ClosingBreaks`).
- NetBuf.NetBuf.Init: the header of the interface buffer is a set of fields beside the block of bytes, not bytes at its start; its statistics are left out. The buffer's own sanity macro (`intnet.h:166-187`) takes both ends of each ring from its start and one name in it does not exist, so it is not used as an invariant.
- PDMNETWORKGSO is eight opaque bytes; whether a GSO context is valid is not checked, and a GSO frame read is its context and data in one.
- RingBuffer.RingBuf.SendFrames: whether a GSO context is valid and whether the network is busy come in as functions; what is done with a frame that is sent, and a GSO frame shorter than its context, are not modelled.
- ScatterGather.SgReadEx: segments are values, so a segment that overlaps the destination is not modelled.
- SwitchWrite.RingWriteFrame: a new destination address only for frames at least as long as one, which the asserted minimum size implies.
- TlsRef.RefObj.Release: the wrap of the 32-bit count is not modelled, calls are sequential, and a destructor that touches other objects or thread slots, or drops references it has not taken, is not. The freeing of the object's memory is not modelled.
- PointerShape.SizeCoversIff: for a 64-bit `size_t`; with 32 bits the final sum could wrap as well.
- Trunk ports, interface factories, request structures, the VBVA and HGCM protocols, PCI and disassembler accessors: no bodies in these headers, or one-branch facts.
