# RinOS SDK: models and proofs

RinOS-SDK is a C runtime and a set of SDK wrappers. Most wrappers only marshal arguments; the
parts modelled here do not. Each module states what one component does, in the component's own
terms, and proves what its documentation, its callers or the standard it implements rely on.

| module | component |
|---|---|
| ObjectCloseHooks | the spin-locked table of object-close hooks: register, unregister, notify, in any interleaving of any number of threads, hooks re-entering the registry included |
| ExceptionFrames, ExceptionRecords, ExceptionGuarantees | the C++ exception runtime: a chain of frames with stacks of cleanups, unwinding, throwing and leaving, with callbacks that do all of this again |
| GpuOwnership | allocated GPU buffers and CPU mappings against a kernel that may refuse any request |
| HeapSort | `qsort`, from bytes to sorted elements |
| NumberParsing, Formatting, FormatConformance, NumberRoundTrip, CText | `strtoull`, `vsnprintf`, exactly where its integers differ from the standard, and that the one reads what the other prints |
| AlignedHeap | `aligned_alloc`, `posix_memalign`, `realloc`, `free` with hidden metadata |
| Utf8, WireUtf8 | the encoder and the two UTF-8 validators of RFC 3629, sections 3 and 4 |
| MediaWire, MediaFrames, MediaImages, MediaSession | the media client: request and reply over a byte stream against an arbitrary peer, numbered video frames, pixel copies, the image decode cache |
| ImeProvider | the input-method provider: negotiation, the context in force, identifiers that never repeat |
| BindGroup | graphics bind groups: one pass with a 64-bit mask |
| Words, Bits, Strides | what several modules share |

The components whose code updates state step by step are classes and methods with loops (`Registry`,
`Runtime`, `Port`, `BufferSlot`, `MappingSlot`, `FormatOutput`, `Socket`, `Session`, `Provider`,
`Heap`, the byte-wise `qsort`), each proved against specification functions or predicates; what the
source promises is then proved about those.

`dafny verify dfyconfig.toml` checks the project.

## Where the code and its documentation differ

- `include/rin/gui/text_input_provider.h:105-112` says a caret rectangle marked NO_REPLY is not
  answered; `examples/consumer/ime_provider.c` answers it with UNSUPPORTED. The model follows the
  code; `ImeProvider.AnsweredAsWanted` proves that these are exactly the frames where it differs, and
  `ImeProvider.CaretAnsweredUnasked` shows one.
- A context carries `max_commit_bytes`, which the provider does not look at.
  `ImeProvider.CommitsFitLimit` gives, for every commit of every trace, the exact condition under
  which it fits the limit in force; `ImeProvider.CommitOverLimit` serves a connection on which one
  does not.
- The integer conversions of `vsnprintf` differ from section 7.21.6.1 of ISO C17. Precision zeros do
  not count against the field width; the 0 flag pads with zeros although a precision is given; the
  flags plus, space and # and the lengths h and hh are read and ignored; and `z` with d or i is not
  signed on the 32-bit target. `FormatConformance.StandardExactly` gives, for every directive and
  argument, the exact condition under which the text is the standard's, and there is one input for
  each way to miss it. The lengths j, t and L and the conversions of floating point are not read at
  all: such a directive comes out as text.
- A cleanup is meant to be disposed of with its frame. One registered on a frame that is gone, which
  `rin_cpp_exception_register_cleanup` allows, is not: the end of the block and a later throw find
  another frame on top, and only an explicit unwind or unregister disposes of it. A frame is gone
  once its block has left it, or once a throw has landed on it, so a handler loses what it registers
  on its own frame. `ExceptionGuarantees.FrameEndsClean`, `BlockEndsClean` and `ThreadDisposesAll` hold
  for all other registrations; `LastRegistration` gives the exact condition for a registration right
  before leaving; `LateRegistrationIsLost` and `HandlerRegistrationIsLost` show a program each that
  loses one.
- Three tests of the source can never fail and are proved so: the range test behind the UTF-8 loop,
  the full-mask test behind the bind-group loops, the wrap test of `aligned_alloc`; and one block
  can never be reached: the second cleanup block of the GPU buffer map.

## Model

| member | source | states |
|---|---|---|
| ObjectCloseHooks.UnloadIsSafeAfterSuccess | include/rin/base.h:9-29 | once unregister has succeeded, at every later point of every interleaving no call of that registration is pending, running or unreleased, the token is stale whatever was registered since, and the hook's code is not in use unless registered again |
| ObjectCloseHooks.ReachableInv | src/rinsdk_v1.c:584-752 | every state any interleaving of any threads can reach satisfies the registry invariant: each counter equals the outstanding claims on its slot, every claim matches its slot, no hook occupies two slots, generations are distinct and issued |
| ObjectCloseHooks.StepKeepsInv | src/rinsdk_v1.c:584-752 | every critical section, callback start and callback return of any thread keeps that invariant |
| ObjectCloseHooks.RunKeepsInv | src/rinsdk_v1.c:584-752 | so does every run from any state that satisfies it |
| ObjectCloseHooks.OutstandingAfter | src/rinsdk_v1.c:708-752 | one step changes the number of outstanding claims of a call by exactly what it claims or releases |
| ObjectCloseHooks.ClaimedOnce | src/rinsdk_v1.c:726-735 | the claiming loop takes each claimable slot exactly once and no other |
| ObjectCloseHooks.NotifyAllOrNothing | src/rinsdk_v1.c:708-736 | a notification claims all active hooks once each, or none and only when some active counter is full; no counter wraps |
| ObjectCloseHooks.ReleaseNeverSkips | src/rinsdk_v1.c:738-750 | when a release happens, its guard holds, and the counter goes down by exactly one |
| ObjectCloseHooks.OnlyRegisteredHooksRun | src/rinsdk_v1.c:708-752 | a call that is pending, running or unreleased is the call of its slot as it stands, and the slot's counter is positive |
| ObjectCloseHooks.UnregisterSucceeds | src/rinsdk_v1.c:674-706 | unregister succeeds exactly on a registration of that slot and generation that is not pinned and has no outstanding claim |
| ObjectCloseHooks.NoSuccessFromInside | src/rinsdk_v1.c:674-706 | while a call is unreleased, also from inside the hook itself, its token does not unregister successfully |
| ObjectCloseHooks.BusyStartsDraining | src/rinsdk_v1.c:696-700 | a BUSY answer leaves the slot inactive with claims outstanding |
| ObjectCloseHooks.DrainStep | src/rinsdk_v1.c:674-752 | from then on no step adds a claim, a release takes one off, and only a successful unregister ends it |
| ObjectCloseHooks.BusyDrainsToSuccess | include/rin/base.h:16-28 | along any run after BUSY, a retry is refused exactly while some release is still owed, and then succeeds |
| ObjectCloseHooks.OwnedTokenNamesItsSlot | src/rinsdk_v1.c:625-672 | an owned registration succeeds exactly for a new hook with a free slot and a generation left; its token is a nonzero 64-bit number that decodes to the slot and generation it was built from |
| ObjectCloseHooks.TokensNeverRepeat | src/rinsdk_v1.c:625-672 | whatever happens in between, no two owned registrations of one run get the same token |
| ObjectCloseHooks.LegacyPins | src/rinsdk_v1.c:584-623 | from a successful legacy registration on, at every point of every interleaving, the hook sits active in its slot and no token naming that slot unregisters successfully |
| ObjectCloseHooks.LegacyRefused | src/rinsdk_v1.c:584-623 | each refusal of the legacy call happens exactly in its case (no hook, draining, table full) and changes nothing |
| ObjectCloseHooks.Registry.RegisterHook | src/rinsdk_v1.c:584-623 | the in-place update refines the specification of the critical section |
| ObjectCloseHooks.Registry.RegisterOwnedHook | src/rinsdk_v1.c:625-672 | likewise, token included |
| ObjectCloseHooks.Registry.UnregisterHook | src/rinsdk_v1.c:674-706 | likewise, for every answer |
| ObjectCloseHooks.Registry.ClaimHooks | src/rinsdk_v1.c:708-736 | the two loops claim what the specification claims, in order |
| ObjectCloseHooks.Registry.ReleaseHook | src/rinsdk_v1.c:740-749 | the guarded decrement refines the releasing section |
| ExceptionGuarantees.FrameEndsClean | src/rincrt_bootstrap_v1.c:303-437 | however the body of a try block ends short of the process exiting, frames left early or from inside a cleanup included, every cleanup registered on its frame before the frame was gone has been run or unregistered exactly once and freed exactly once, newest first, and the chain is the one below the frame but for frames left by name |
| ExceptionGuarantees.BlockEndsClean | src/rincrt_bootstrap_v1.c:303-437 | the same for the whole block, handler included: the frame is off the chain, and only what was registered on it when it was already gone may be left |
| ExceptionGuarantees.LastRegistration | src/rincrt_bootstrap_v1.c:337-418 | a cleanup registered right before its frame is left is disposed of if and only if the frame is on top of the chain, whatever its callback does; a frame that is gone never is |
| ExceptionGuarantees.LateRegistrationIsLost | src/rincrt_bootstrap_v1.c:337-418 | a block that leaves its frame and then registers on it ends normally with the cleanup neither run nor freed |
| ExceptionGuarantees.HandlerRegistrationIsLost | src/rincrt_bootstrap_v1.c:337-437 | a handler that registers on its own frame ends normally with the cleanup neither run nor freed |
| ExceptionGuarantees.UnwindDisposes | src/rincrt_bootstrap_v1.c:313-335 | unwinding a frame by name disposes of everything registered on it, also of what was registered when it was gone |
| ExceptionGuarantees.LeftByItsOwnCleanup | src/rincrt_bootstrap_v1.c:410-418 | a cleanup that leaves the frame being left takes it off the chain, the second test of the top fails, and the frame below stays on |
| ExceptionGuarantees.ThreadDisposesAll | src/rincrt_bootstrap_v1.c:303-437 | a whole thread never jumps to a frame that is gone, and ends with no frame installed and no cleanup lost, run twice or freed twice, but for those registered on a frame that was left or landed on |
| ExceptionGuarantees.BodyKeeps | src/rincrt_bootstrap_v1.c:400-437 | a try block that throws lands on its own frame with the chain below it as it was, or, its frame left early, on an outer one; however it ends, its frame is off the chain and keeps no record but late ones |
| ExceptionGuarantees.UnwindKeeps | src/rincrt_bootstrap_v1.c:313-335 | unwinding a frame empties it and takes nothing off the chain but frames left by name, although its callbacks may register, unregister, leave and throw |
| ExceptionGuarantees.InvokeKeeps | src/rincrt_bootstrap_v1.c:303-311 | running one cleanup under a guard frame leaves the chain exactly as it was and never throws, whatever the cleanup does |
| ExceptionGuarantees.LeaveKeeps | src/rincrt_bootstrap_v1.c:410-418 | leaving the frame on top empties it and takes it off once, also when its cleanups leave frames themselves; a cleanup that throws out of it lands on the innermost frame |
| ExceptionGuarantees.ThrowKeeps | src/rincrt_bootstrap_v1.c:421-437 | a throw never returns, and delivers the exception thrown to the frame that was innermost, which is off the chain and has no cleanups left |
| ExceptionGuarantees.OpKeeps | src/rincrt_bootstrap_v1.c:337-437 | every operation a callback or a body can make keeps the chain in order: it ends with the chain as it was but for frames left by name, or lands on the innermost frame |
| ExceptionGuarantees.UnregisterAlongKeeps | src/rincrt_bootstrap_v1.c:379-398 | unregistering along the chain adds no record anywhere and touches neither the chain nor the owners of records |
| ExceptionRecords.ScriptRecords | src/rincrt_bootstrap_v1.c:303-437 | whatever a script and its callbacks do, every record is registered once and either still on its frame or disposed of and freed exactly once, and the runs on each frame go newest first |
| ExceptionFrames.FuelIsEnough | src/rincrt_bootstrap_v1.c:303-437 | a run that ends gives the same result under every larger call depth, so the depth bound only cuts off runs that do not end |
| ExceptionFrames.Runtime.InstallFrame | src/rincrt_bootstrap_v1.c:400-408 | the in-place operation refines the interpreter's |
| ExceptionFrames.Runtime.RegisterCleanup | src/rincrt_bootstrap_v1.c:337-350 | likewise, refusals and allocation failure included |
| ExceptionFrames.Runtime.UnregisterCleanup | src/rincrt_bootstrap_v1.c:352-369 | the list walk takes out the newest matching record and no other |
| ExceptionFrames.Runtime.UnregisterCurrentCleanup | src/rincrt_bootstrap_v1.c:379-398 | the walk over the chain takes the match of the innermost frame that has one |
| ExceptionFrames.Runtime.UnwindFrame | src/rincrt_bootstrap_v1.c:313-335 | the loop that re-reads the list after every callback refines the recursive unwinding |
| ExceptionFrames.Runtime.InvokeGuarded | src/rincrt_bootstrap_v1.c:303-311 | refines the guarded call |
| ExceptionFrames.Runtime.LeaveFrame | src/rincrt_bootstrap_v1.c:410-418 | refines leaving |
| ExceptionFrames.Runtime.ThrowFrom | src/rincrt_bootstrap_v1.c:421-437 | refines throwing |
| ExceptionFrames.Runtime.PerformAll | src/rincrt_bootstrap_v1.c:303-437 | a whole script on the mutable state gives the state and outcome of the interpreter |
| GpuOwnership.NothingLostNothingTwice | src/rinsdk_v1.c:2655-2989 | over any run of create, destroy, map and unmap with any refusals: live allocations are exactly those named by BOUND or pending records, bound cookies belong exactly to BOUND records, every lease is named by exactly one record, a mapped view lies inside its lease without wrapping, and nothing is ever released that is not held |
| GpuOwnership.StepKeepsInv | src/rinsdk_v1.c:2655-2989 | every single call keeps that ownership invariant |
| GpuOwnership.CreateOutcome | src/rinsdk_v1.c:2891-2954 | create succeeds exactly when both requests are granted; otherwise nothing is owned, or the record handed back is one destroy accepts and names exactly what is left |
| GpuOwnership.DestroyOutcome | src/rinsdk_v1.c:2956-2989 | destroy releases each half at most once, and the record it leaves names exactly what is left, so a retry completes it |
| GpuOwnership.MemoryMapOutcome | src/rinsdk_v1.c:2198-2259 | the inner map grants one validated lease, keeps one it could not give back, or leaves none |
| GpuOwnership.MapOutcome | src/rinsdk_v1.c:2708-2813 | map ends with no lease more, or with exactly the one its record names; it ends MAPPED exactly if it succeeded, with the buffer's part of the lease in view |
| GpuOwnership.MapSucceeds | src/rinsdk_v1.c:2708-2813 | map succeeds exactly when the kernel grants a fresh, well-formed lease that covers the buffer |
| GpuOwnership.SecondCleanupUnreachable | src/rinsdk_v1.c:2782-2797 | after the checks already made, the view address does not wrap, so the second cleanup block is unreachable |
| GpuOwnership.UnmapKeeps | src/rinsdk_v1.c:2815-2831 | unmap succeeds exactly when the kernel agrees, then empties the record, and otherwise changes nothing |
| GpuOwnership.CreateKeeps | src/rinsdk_v1.c:2891-2954 | create keeps the ledgers of allocations and cookies |
| GpuOwnership.DestroyKeeps | src/rinsdk_v1.c:2956-2989 | destroy keeps them, through its pending state |
| GpuOwnership.MapKeeps | src/rinsdk_v1.c:2708-2813 | map keeps the ledger of leases |
| GpuOwnership.Port.MapMemory | src/rinsdk_v1.c:2198-2259 | the call as written, with its cleanup, refines the specification |
| GpuOwnership.BufferSlot.Create | src/rinsdk_v1.c:2891-2954 | refines create on the caller's record |
| GpuOwnership.BufferSlot.Destroy | src/rinsdk_v1.c:2956-2989 | refines destroy |
| GpuOwnership.MappingSlot.Map | src/rinsdk_v1.c:2708-2813 | refines map, both cleanup blocks included |
| GpuOwnership.MappingSlot.Unmap | src/rinsdk_v1.c:2815-2831 | refines unmap |
| HeapSort.HeapSortedSorts | src/rincrt_bootstrap_v1.c:1149-1167 | for every count and comparator the result is a permutation of the input; it is sorted whenever the comparator is a consistent total preorder on the elements |
| HeapSort.SiftDownMakesHeap | src/rincrt_bootstrap_v1.c:1129-1147 | sift-down restores the heap on its range when only its start may break it |
| HeapSort.SwapKeepsHeapBut | src/rincrt_bootstrap_v1.c:1135-1146 | one exchange moves the only possible break of the heap to the selected child |
| HeapSort.HeapifyMakesHeap | src/rincrt_bootstrap_v1.c:1156-1160 | the first loop makes the whole array a heap |
| HeapSort.RootIsMaximum | src/rincrt_bootstrap_v1.c:1161-1166 | the root of a heap is a maximum of it |
| HeapSort.DrainSorts | src/rincrt_bootstrap_v1.c:1161-1166 | the second loop sorts |
| HeapSort.ExchangedSwapsElements | src/rincrt_bootstrap_v1.c:1119-1127 | exchanging two byte ranges exchanges two elements and changes no other |
| HeapSort.SwapBytes | src/rincrt_bootstrap_v1.c:1119-1127 | the byte loop exchanges the ranges and touches nothing else |
| HeapSort.SiftDownBytes | src/rincrt_bootstrap_v1.c:1129-1147 | on bytes in place, for any element size, it refines sift-down on elements, and it terminates |
| HeapSort.QSort | src/rincrt_bootstrap_v1.c:1149-1167 | sorts in place whatever the element size, and leaves the bytes behind the elements alone |
| NumberParsing.StrtoullConforms | src/rincrt_bootstrap_v1.c:909-950 | for every string and base: the end of the longest subject sequence, the value saturated at 2^64-1 and negated modulo 2^64 after a minus sign, a range error exactly when it does not fit, as section 7.22.1.4 of ISO C17 asks |
| NumberParsing.SubjectIsShorter | src/rincrt_bootstrap_v1.c:918-947 | no subject sequence reaches further than the digits taken |
| NumberParsing.OverflowTest | src/rincrt_bootstrap_v1.c:938-944 | the division test decides exactly whether the next digit still fits |
| NumberParsing.Accumulate | src/rincrt_bootstrap_v1.c:934-946 | the digit loop computes the mathematical value, saturated, and whether it overflowed |
| NumberParsing.ParseUnsigned | src/rincrt_bootstrap_v1.c:909-950 | the cursor loops refine the function proved to conform |
| Formatting.VsnPrintf | src/rincrt_bootstrap_v1.c:1584-1721 | for every format, arguments and capacity the buffer receives exactly the front of the unbounded rendering that fits, then NUL, and keeps every other character; the length returned does not depend on the capacity |
| Formatting.FormatNext | src/rincrt_bootstrap_v1.c:1592-1713 | one round of the loop appends what the rendering of that character or directive is |
| Formatting.ReadDirective | src/rincrt_bootstrap_v1.c:1603-1651 | the cursor over flags, width, precision and length reads the directive the grammar gives |
| Formatting.FormatNumber | src/rincrt_bootstrap_v1.c:1673-1708 | sign, prefix, padding and digits come out as the number's text |
| Formatting.UnsignedText | src/rincrt_bootstrap_v1.c:1551-1565 | the digits come out most significant first, all of them |
| Formatting.AtMost22Digits | src/rincrt_bootstrap_v1.c:1551-1565 | no 64-bit magnitude needs more than 22 digits, so the 32-digit limit never cuts one |
| Formatting.FormatOutput.Put | src/rincrt_bootstrap_v1.c:1538-1543 | one character more counts, and is stored exactly if it lies before the last place |
| Formatting.FormatOutput.Terminate | src/rincrt_bootstrap_v1.c:1715-1719 | the terminator goes behind the last character kept |
| FormatConformance.StandardExactly | src/rincrt_bootstrap_v1.c:1603-1708 | for every directive with an integer conversion and every argument, on both targets, the text is the one section 7.21.6.1 of ISO C17 asks for if and only if the argument lies in the range of the type its length names and the form is kept: no sign or base dropped, no zero or blank asked for that padding does not hide, no padding misplaced |
| FormatConformance.FitsExactly | src/rincrt_bootstrap_v1.c:1567-1582 | the number printed is the argument converted to the type its length names exactly if the argument lies in that type's range |
| FormatConformance.FormExactly | src/rincrt_bootstrap_v1.c:1691-1706 | for one number, the code's text and the standard's agree exactly under the condition on flags, width and precision |
| FormatConformance.OtherNumberDiffers | src/rincrt_bootstrap_v1.c:1691-1706 | texts of different numbers differ, whatever the flags |
| FormatConformance.PrecisionZerosNotCounted | src/rincrt_bootstrap_v1.c:1696-1704 | `%5.3d` of a one-digit number is seven characters where the standard has five |
| FormatConformance.ZeroFlagWithPrecision | src/rincrt_bootstrap_v1.c:1696-1704 | `%03.1d` of a one-digit number is padded with zeros where the standard has blanks |
| FormatConformance.PlusDropped | src/rincrt_bootstrap_v1.c:1603-1609 | `%+d` of a number that is not negative has no plus |
| FormatConformance.SpaceDropped | src/rincrt_bootstrap_v1.c:1603-1609 | the space flag puts no blank in front of a number that is not negative |
| FormatConformance.BaseDropped | src/rincrt_bootstrap_v1.c:1603-1609 | `%#x` of a number that is not zero has no 0x |
| FormatConformance.OctalZeroDropped | src/rincrt_bootstrap_v1.c:1603-1609 | `%#o` of a number that is not zero has no leading zero |
| FormatConformance.NarrowLengthIgnored | src/rincrt_bootstrap_v1.c:1649-1651 | `%hhd` of 300 prints 300 where the standard has 44 |
| FormatConformance.NegativeSizePrintedUnsigned | src/rincrt_bootstrap_v1.c:1576-1582 | `%zd` of -1 on the 32-bit target prints the number 4294967295 where the standard has -1 |
| NumberRoundTrip.PrintThenParse | src/rincrt_bootstrap_v1.c:1669-1708 | whatever the flags, width and precision and on both targets, printing an integer argument and parsing the text in the matching base gives the argument's bits back modulo 2^64, sign- or zero-extended for the shorter lengths; only a zero with precision zero prints no digits |
| NumberRoundTrip.ValueOfDigits | src/rincrt_bootstrap_v1.c:1551-1565 | the digits printed denote the value printed |
| AlignedHeap.RefusesMeans | src/rincrt_bootstrap_v1.c:1068-1074 | on both targets the bit tests refuse exactly a size or alignment that is too small, not a power of two, not a multiple, or too large for the address space |
| AlignedHeap.RoundedUpIsNextMultiple | src/rincrt_bootstrap_v1.c:1083-1083 | the mask arithmetic gives the next multiple of the alignment |
| Bits.PowerOfTwoTest | src/rincrt_bootstrap_v1.c:1069-1069 | n & (n - 1) is zero exactly for powers of two |
| Bits.MaskIsRemainder | src/rincrt_bootstrap_v1.c:1070-1083 | masking with a power of two minus one is the remainder, masking it out rounds down |
| AlignedHeap.MetaIsRead | src/rincrt_bootstrap_v1.c:1084-1089 | the metadata written is the metadata found, and nothing else is written |
| AlignedHeap.GuardNamesPointer | src/rincrt_bootstrap_v1.c:59-62 | on both targets a guard word fits one pointer only |
| AlignedHeap.Heap.Unwraps | src/rincrt_bootstrap_v1.c:64-74 | in every reachable heap the metadata of an aligned pointer names exactly its raw block |
| AlignedHeap.Heap.UserBytesApart | src/rincrt_bootstrap_v1.c:51-74 | the user bytes of different pointers are disjoint, and disjoint from all metadata |
| AlignedHeap.Heap.AlignedAlloc | src/rincrt_bootstrap_v1.c:1061-1091 | succeeds exactly if the arguments pass and the allocator grants; the pointer is a multiple of the alignment, lies with the whole request inside the fresh block behind its metadata, and no byte outside the block changes |
| AlignedHeap.Heap.PosixMemalign | src/rincrt_bootstrap_v1.c:1093-1105 | EINVAL exactly for a bad alignment, success exactly if the rounded size fits and the allocator grants; a success serves at least the size asked for, a failure changes nothing |
| AlignedHeap.Heap.Free | src/rincrt_bootstrap_v1.c:1009-1015 | gives back exactly the block behind the pointer, aligned or plain |
| AlignedHeap.Heap.Realloc | src/rincrt_bootstrap_v1.c:1033-1059 | the new block starts with the common prefix, the old block is given back, a refusal leaves everything as it was; a plain block is handed to the plain allocator, whose answer damages no aligned pointer |
| AlignedHeap.Heap.UsableSize | src/rincrt_bootstrap_v1.c:1107-1116 | the number of user bytes up to the end of the block |
| AlignedHeap.Heap.Write | src/rincrt_bootstrap_v1.c:51-74 | writing user bytes never damages metadata |
| Utf8.ValidIffEncoded | src/rinsdk_v1.c:1708-1747 | a byte string is accepted exactly when it is a concatenation of encodings of nonzero scalar values |
| Utf8.DecodingIsUnique | examples/consumer/ime_provider.c:231-257 | no byte string encodes two different texts |
| Utf8.FinalTestIsRedundant | src/rinsdk_v1.c:1742-1744 | the final range and surrogate test rejects nothing that reaches it |
| Utf8.CandidateIsEncoding | src/rinsdk_v1.c:1712-1741 | what the lead and second-byte tests let through is the encoding of a scalar value, and of no other |
| Utf8.EncodingIsNext | examples/consumer/ime_provider.c:231-257 | the validator consumes exactly one encoding |
| Utf8.Utf8Valid | src/rinsdk_v1.c:1708-1747 | the loop accepts exactly those byte strings |
| Utf8.EncodeInto | examples/consumer/ime_provider.c:231-257 | refuses exactly what is no nonzero scalar value, and writes nothing behind the encoding |
| WireUtf8.SameStep | include/rin/gui/text_input_provider.h:282-318 | the second validator of the repository takes the same step as the first, everywhere |
| WireUtf8.WireUtf8Valid | include/rin/gui/text_input_provider.h:282-318 | so it accepts exactly the same byte strings |
| MediaWire.AnswersCoverTheStream | src/rinmedia_sdk_client_v1.c:616-757 | at a message boundary, what has been read is the whole answers to the requests sent, in order, and nothing else |
| MediaWire.AnsweredOneMore | src/rinmedia_sdk_client_v1.c:616-757 | a boundary and one more whole answer make the next boundary |
| MediaWire.Socket.Receive | src/rinmedia_sdk_client_v1.c:227-337 | however the stream is split, a success has stored exactly the next bytes of it and touched nothing else; any positive counts that add up to the size make it succeed; the plain form uses at most sixteen events a byte |
| MediaWire.CountsAddUp | src/rinmedia_sdk_client_v1.c:227-258 | every way of splitting a size into positive counts is one that makes a transfer succeed |
| MediaSession.Session.Serve | src/rinmedia_sdk_client_v1.c:1529-2060 | after any run of calls against any peer, a session still published has consumed exactly the answers to its requests, and has delivered frames 0, 1, 2, ... |
| MediaSession.Session.PublishedMeans | src/rinmedia_sdk_client_v1.c:1529-2060 | what a published session guarantees between calls |
| MediaSession.Session.Rpc | src/rinmedia_sdk_client_v1.c:674-757 | a success has sent one request under the next id and consumed the header of its answer; a failure has a failed transfer or an answer that does not match |
| MediaSession.Session.AudioDecode | src/rinmedia_sdk_client_v1.c:1743-1821 | a success returns the frames of one whole acceptable answer, with zeros behind them up to the room for the frames asked for, and ends at a boundary; a sent request fails only if a transfer fails or the answer is not acceptable, and then retires the session and leaves that room zero; every refusal sends nothing and touches nothing; no byte behind the size offered changes |
| MediaSession.Session.VideoDecode | src/rinmedia_sdk_client_v1.c:1853-2045 | a success delivers exactly the next frame into the target rows, or the end of the stream, accepted only at a known count, which advances nothing; every failure has its reason and retires the session; every refusal sends nothing |
| MediaSession.Session.ReadFrameRecord | src/rinmedia_sdk_client_v1.c:1918-1973 | the record returned is the one on the stream; an integrity failure means exactly that it is not acceptable |
| MediaSession.Session.TakePixels | src/rinmedia_sdk_client_v1.c:1988-2041 | the frame's rows are copied with the swap for RGBA, every other byte of the target stays |
| MediaFrames.CopyRows | src/rinmedia_sdk_client_v1.c:2007-2033 | the row loops copy every row to its place unless cancelled before a row or behind the last |
| MediaFrames.SourceStaysAndReturns | src/rinmedia_sdk_client_v1.c:2018-2028 | the channel swap stays inside its pixel and undoes itself |
| MediaSession.Session.BeginRequest | src/rinmedia_sdk_client_v1.c:616-661 | a success has consumed the header of the answer; an error reported by the service is passed on and leaves the session at a boundary |
| MediaSession.Session.FetchImage | src/rinmedia_sdk_client_v1.c:1101-1186 | an acceptable answer becomes the cache, under the next request id; a failure leaves the cache, and happens only if a transfer fails or the answer is not acceptable |
| MediaSession.Session.ImageDecodeLocked | src/rinmedia_sdk_client_v1.c:1078-1186 | a cached frame costs no request; otherwise one request with a new id, and the record kept is acceptable for the frame and budget asked for |
| MediaSession.Session.ReadPixels | src/rinmedia_sdk_client_v1.c:1188-1248 | the chunk loop fills the output with the pixels of its answers, one behind the other, and nothing else; it fails only if a transfer fails or the last answer is no chunk that continues them |
| MediaSession.Session.ImageDecode | src/rinmedia_sdk_client_v1.c:1637-1723 | a success delivers the image of the frame asked for, four bytes a pixel; a transport or integrity failure retires the session, every other outcome leaves it at a boundary; after a failure the output is clear; a call fails only because it is refused, which sends nothing, because the frame has no acceptable answer, because the image is too large for the caller, or for a reason of ReadPixels |
| ImeProvider.CommitIdsIncrease | include/rin/gui/text_input_provider.h:201-210 | over the whole life of the provider delivery ids strictly increase |
| ImeProvider.CandidateNumbersIncrease | include/rin/gui/text_input_provider.h:221-231 | candidate generations strictly increase and never wrap |
| ImeProvider.CommitsAreDue | examples/consumer/ime_provider.c:425-447 | every commit ever sent was sent while handling a key press that types, with the generation of the context then in force, and carries that key's text |
| ImeProvider.OneKindOfContext | examples/consumer/ime_provider.c:454-476 | the features agreed on admit exactly one kind of context message |
| ImeProvider.ContextFitsFeatures | examples/consumer/ime_provider.c:372-400 | the context in force is of that kind, with its focused surface alive |
| ImeProvider.AnsweredAsWanted | include/rin/gui/text_input_provider.h:105-112 | a served frame gets the replies the wire format asks for, if and only if it is not a caret rectangle marked NO_REPLY |
| ImeProvider.CaretAnsweredUnasked | examples/consumer/ime_provider.c:449-497 | a caret rectangle marked NO_REPLY is served with one reply |
| ImeProvider.CommitsFitLimit | examples/consumer/ime_provider.c:259-283 | a commit sent at any point of any lawful trace fits the limit of the context in force exactly when the key's scalar lies below the bound for that limit (0x80, 0x800, 0x10000 for one to three bytes), always from four bytes on |
| ImeProvider.CommitOverLimit | examples/consumer/ime_provider.c:259-283 | serving a connection that sets a limit of one byte and presses a key for a four-byte character leaves a trace in which the commit of four bytes is sent under that limit |
| ImeProvider.Provider.Live | examples/consumer/ime_provider.c:592-645 | every trace the provider can leave, over any connections, is lawful |
| ImeProvider.Provider.Serve | examples/consumer/ime_provider.c:567-590 | a connection keeps the trace lawful and ends with no context in force; one with an acceptable offer, frames that are all served, commits that are acknowledged and sends that get through leaves exactly the handshake and then each frame with its full response |
| ImeProvider.Provider.Converse | examples/consumer/ime_provider.c:577-588 | the frame loop answers such a compositor frame by frame to the end of its inbox |
| ImeProvider.Provider.Negotiate | examples/consumer/ime_provider.c:313-351 | an offer is accepted exactly if it needs nothing unsupported and makes sense; what is agreed on is what was acknowledged, the features offered and supported |
| ImeProvider.Provider.HandleFrame | examples/consumer/ime_provider.c:449-497 | what is sent for a frame is the response the protocol gives, in order, or a front of it when the connection fails; a served frame fails only if a send fails, an identifier has run out or a commit is not acknowledged |
| ImeProvider.Provider.HandleKey | examples/consumer/ime_provider.c:425-447 | likewise for a key, with the commit and its acknowledgement |
| ImeProvider.Provider.TakeContext | examples/consumer/ime_provider.c:454-476 | a context is put in force exactly if the features admit its kind |
| ImeProvider.Provider.LiveExactlyInForce | examples/consumer/ime_provider.c:402-416 | the liveness test holds exactly when some context is in force |
| ImeProvider.Provider.SendCommit | examples/consumer/ime_provider.c:259-283 | the id is used up by the attempt; success means the matching acknowledgement came |
| BindGroup.CreateGraphicsBindGroup | src/rinsdk_v1.c:3317-3360 | submitted exactly when the target and every binding are valid and the numbers are a permutation of 0 to count-1, and then as given |
| BindGroup.CreateGraphicsBindGroupV1 | src/rinsdk_v1.c:3265-3315 | the same for the first version, with its binding test |
| BindGroup.LoopFillsTheMask | src/rinsdk_v1.c:3296-3300 | once every number has passed the loop the mask is full, so the final test never fails |
| BindGroup.Pigeonhole | src/rinsdk_v1.c:3280-3299 | distinct numbers below their count are all the numbers below it |
| BindGroup.MaskOfWithBit | src/rinsdk_v1.c:3293-3293 | setting a bit of the mask adds its number to the set |
| BindGroup.FullExactlyWhenAllSeen | src/rinsdk_v1.c:3296-3299 | the mask is full exactly when every number was seen |

## Left out

- Everything that only marshals arguments: file, net, config, package and thread wrappers, raw system calls, inline assembly, service start and lookup, peer identity checks, socket setup. They add no behaviour of their own.
- Header-only ABI records and layout assertions, the demos beside the input-method provider, and `examples/consumer/build.py`.
- `strtod`, which is about rounding, and the simple string and byte routines, which would be easy members.
- Spin locks: each critical section of the hook registry is one atomic step. The token's shift by eight bits is a product with 256.
- Exception frames: linked records are sequences, one per frame; `longjmp` is an outcome of the interpreter; a script names the frames of the try blocks around it, not those of blocks that have returned; destruction of thrown objects (`throw_object`, `release_frame`) is not modelled, because only one current cleanup is remembered and nested catches run it at most once.
- ExceptionGuarantees.FrameEndsClean: speaks of runs that end within the interpreter's call depth; FuelIsEnough shows the depth changes no run that ends.
- GPU kernel behaviour is assumed, not proved: a refused request changes nothing, a live handle, cookie or lease token is not granted again, and the token of a malformed mapping is the real lease. NULL pointer arguments are not modelled.
- HeapSort.QSort: comparators are functions of the two elements, without state; a NULL base or comparator is not modelled, and all elements lie in one array.
- Formatting.VsnPrintf: a NULL format, arguments of the wrong kind (which read as zero) and widths beyond `int` are not modelled; `vfprintf`, which cuts at 1023 characters, is not.
- FormatConformance.StandardExactly: the conversions c, s and p are not compared with the standard. Where it leaves the effect of a flag undefined, as # with d, i or u, the text without the flag is taken as its text.
- NumberRoundTrip.PrintThenParse: the pointer conversion is taken with its prefix, as printed.
- AlignedHeap: `rin_user_allocator_*` is not part of this model; what it grants is a parameter that must be a block apart from all live ones. its own `realloc` is any answer that keeps the block, takes it back for an empty request, or moves the common prefix to such a block. `calloc` is left out. A plain block is assumed not to look like an aligned one.
- MediaSession.Session.VideoDecode: the test of the pitch against the target's extent (lines 1982-1987) is not repeated; the frame's height was already checked against the target's, and the copy needs no more.
- Utf8: bit masks and shifts on bytes are remainders and quotients.
- MediaSession.Session.Serve: calls are sequential, each holding its session; the session table, its slot reuse, the process checks and opening a session are left out. Requests are their operation and id; their bytes are not modelled.
- MediaWire.Socket.Receive: the operating system is a finite list of events, so waiting without end is not a run. The bound on retries is that of the transfer without cancellation, which takes a Cancel for an interruption; the other form has no bound to model, because its counters are declared anew in every round.
- ImeProvider: frames are values behind the wire encoding, with the tests of the wire validator that concern the fields kept; records only a provider may send are one kind. Stopping the service and a failing health report end a connection like the peer going away.
- BindGroup.CreateGraphicsBindGroup: the second version's test of a single binding is a parameter; the bound on the number of bindings of the first version is a parameter of at most 64.
