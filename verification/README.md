# Palmod: verified models of the native core

Palmod is an in-process loader: a C++ library that reads a game server's reflection data, encodes
and decodes calls into it, hooks its functions by swapping pointers, and runs Lua plugins on worker
threads; a Rust launcher starts it. This project models the parts of that system that carry state,
arithmetic or recursion, in Dafny 4.11, and proves what each is for. `dafny verify dfyconfig.toml`
checks all of it.

| module | component |
|---|---|
| `Params`, `ParmsEncode`, `ParmsDecode`, `ParmsRoundTrip`, `ParmsPointers`, `ParmsFaithful` | the call-argument serializer and its round trip |
| `ParmsImage` | what an argument block in memory means, said of its bytes |
| `ReflectLayout`, `ReflectImage` | the layout read from live memory that sizes and drives the serializer, and the engine's property objects it is read from |
| `HookChain` | tick, chat and generic pointer-slot hooks |
| `Worker`, `ActionQueue`, `ActionThread`, `ActionOrder`, `LuaAllocator` | a plugin's worker protocol, the queue back to the game thread, Lua's memory account |
| `Json`, `JsonParser`, `JsonRoundTrip`, `JsonGrammar`, `JsonSyntax`, `JsonAlphabet` | the JSON parser and printer, and the grammar of RFC 8259 |
| `Sha256`, `Sha256Standard`, `Sha256Example` | streaming SHA-256, the constants and octet order of FIPS 180-4, and its published example |
| `Utf16` | the UTF-8 and UTF-16 transcoders (RFC 3629, RFC 2781) |
| `FNamePool`, `ReflectionResolver`, `HandleTable` | name index, chunked memory scan, generational handles |
| `CommandLine`, `CommandMeaning` | the control-line printer, the slash-command tokenizer, and what a line means |
| `Paginate`, `Quarantine` | greedy pagination, crash quarantine |
| `Bytes` | bytes, little-endian words, memory snapshots |

Imperative code is modelled by classes and methods with loops; each is proved equal to a function of
its inputs or of the old state, and the theorems are about those functions. Process memory is a map
from addresses to bytes. The encoder's buffers are a growing list: buffer 0 is Parms, the others are
the pools, and the address of each is an arbitrary function of its number.

What the code reads is described a second time without the reader: argument blocks
(`ParmsImage.HoldsFields`), property objects (`ReflectImage.StructAt`), name pools (`FNamePool.Holds`),
JSON texts (`JsonSyntax`), command lines (`CommandMeaning.Reads`) and ill-formed UTF-8
(`Utf16.IllFormedReads`). The readers are proved to return what is described, on every memory or text.

What the proofs found, beside the properties that hold outright:

- The unsigned integer types come back without their sign and ByteProperty with one. The values that
  survive encode and decode are characterised exactly, for single numbers
  (`Params.NumberSurvivesExactly`) and for whole calls (`ParmsFaithful.CallComesBackExactly`).
- Generic hooks are put back in installation order, so two of them on one slot leave a stub behind
  unless the chat or tick hook also sits on that slot. Memory is restored exactly when no other slot
  carries two (`HookChain.RestoredExactly`); such a state is reachable (`HookChain.StackingIsReachable`)
  and calls on the slot are then lost (`HookChain.StackedSlotIsLost`). A further install on it can chain
  a stub to itself, and then a call never returns (`HookChain.NextRoundLoops`).
- Installing an active chat hook again would leave its trampoline swallowing chat
  (`HookChain.ReinstalledChatSwallows`); the backend does not do that.
- Actions execute on the bound thread, whoever moves next, exactly as long as no other thread is bound
  while a drain can still execute something (`ActionThread.RunStaysOnGameThread`;
  `ActionThread.RebindingSplits` is a run that fails). They finish in order, whichever finishes next,
  exactly as long as none is popped while another executes (`ActionOrder.RunStaysInOrder`): a drain
  called from an executor breaks it (`ActionOrder.NestedDrainReorders`), and so does a drain on a
  thread bound meanwhile (`ActionOrder.ReboundDrainReorders`).
- Pagination's comment promises pages no wider than `width`. A page that is a single item can be wider,
  and so can a page opened by an empty item. Counting a single item as fitting, every page fits at
  every width exactly when no item but the last is empty (`Paginate.WidthKeptExactly`), and then no
  page is wider than `width` exactly when no item is (`Paginate.NarrowExactly`).
- An erased handle resolves again when its slot is occupied after a multiple of 2^32 - 1 further
  erases, and at no other time (`HandleTable.ErasedStaysDead`); it then gives another value
  (`HandleTable.HandleComesBack`).
- A name index has 16 bits for the block, although the lookup walks up to 0x100000 blocks: a name
  found higher resolves to itself only by coincidence (`FNamePool.LookupResolvesExactly`), and
  `FNamePool.HighBlockLost` gives a memory where it does not.
- UTF-8 is decoded without refusing the three-byte forms of surrogates: such a form becomes the
  surrogate unit itself, while every other ill-formed sequence becomes U+FFFD (`Utf16.IllFormedReads`).
- The tokenizer counts only unescaped letters against the 512-byte limit of a token, and a 33rd word is
  refused only when a gap ends it (`CommandMeaning.EveryLineMeans`).
- `parms_decode.hpp` says struct and object types are skipped; the code decodes both, and so does the
  model.

## Model

| member | source | states |
|---|---|---|
| `Params.NumberSurvivesExactly` | native/src/parms_encode.cpp:104-115 | an integer argument whose cast is defined decodes to the number supplied if and only if it is integral and in the range both sides agree on |
| `Params.NumberWraps` | native/src/parms_encode.cpp:104-115 | any integer, whether it survives or not, comes back as the one value of the decoded type that is congruent to it |
| `Params.TruncIsTowardZero` | native/src/parms_encode.cpp:104-115 | the cast from double is the integer less than one away on the side of zero |
| `Params.TextSurvivesExactly` | native/src/parms_decode.cpp:26-38 | a text argument decodes to itself if and only if it is well-formed UTF-8 of at most 65536 units |
| `Params.TouchesWithinSpan` | native/src/parms_encode.cpp:35-53 | every byte that belongs to a field lies below the span that bounds the layout |
| `Params.ApartMeansUntouched` | native/src/parms_encode.cpp:35-53 | a byte of a field that is apart from the others belongs to none of them |
| `ParmsEncode.FindInput` | native/src/parms_encode.cpp:18-24 | the first input of that name, or none when no input has it |
| `ParmsEncode.Encoder.constructor` | native/src/parms_encode.cpp:140-142 | the encoder starts from one zeroed Parms buffer |
| `ParmsEncode.Encoder.Fields` | native/src/parms_encode.cpp:35-53 | the field loop produces the buffers that the recursive encoding prescribes; an absent input leaves its bytes alone |
| `ParmsEncode.Encoder.Field` | native/src/parms_encode.cpp:40-51 | one field is dispatched on its type, with the struct depth cut-off |
| `ParmsEncode.Encoder.Str` | native/src/parms_encode.cpp:58-72 | an empty text is the null FString; any other gets a pool of null-terminated UTF-16 and a header |
| `ParmsEncode.Encoder.Array` | native/src/parms_encode.cpp:76-101 | the header is cleared, the pool is filled element by element, and only then is the header written |
| `ParmsEncode.Encoder.Elements` | native/src/parms_encode.cpp:85-96 | the element loop fills the pool at successive strides |
| `ParmsEncode.Encoder.Element` | native/src/parms_encode.cpp:86-95 | one element is a struct within the depth bound, a string or a scalar |
| `ParmsEncode.EncodeParms` | native/src/parms_encode.cpp:136-145 | the whole encoder, within the bounds its precondition states: no write leaves a buffer |
| `ParmsEncode.FieldsFrame` | native/src/parms_encode.cpp:35-53 | encoding changes no byte of another buffer and none outside the layout's fields |
| `ParmsEncode.ArrayFrame` | native/src/parms_encode.cpp:76-101 | encoding an array changes only its own header among the existing bytes |
| `ParmsEncode.ElementsFrame` | native/src/parms_encode.cpp:85-96 | encoding elements changes only their own range of the pool |
| `ParmsDecode.Fields` | native/src/parms_decode.cpp:144-172 | the decoding loop yields the arguments in layout order and skips unsupported types |
| `ParmsDecode.Field` | native/src/parms_decode.cpp:149-168 | one parameter decodes to an array, a struct within the depth bound, a scalar or nothing |
| `ParmsDecode.ArrayElements` | native/src/parms_decode.cpp:109-140 | at most 4096 elements, none for a null or non-canonical pointer, ending at the first undecodable element |
| `ParmsDecode.Element` | native/src/parms_decode.cpp:125-137 | one array element decodes to a struct or a scalar, or ends the list |
| `ParmsDecode.DecodeParms` | native/src/parms_decode.cpp:176-182 | a null Parms pointer has no arguments, any other is decoded from depth 0 |
| `ParmsImage.DecodesTheImage` | native/src/parms_decode.cpp:55-172 | on every memory, whoever wrote it, the decoder reports exactly the tree of integers, object pointers, names with instance numbers, strings, arrays and structs that the bytes hold |
| `ParmsImage.ScalarIsReported` | native/src/parms_decode.cpp:26-99 | a scalar: an object word is its address as a number, a name with instance n > 0 is its text, an underscore and the decimal of n - 1, a string at most 65536 units of the array it points at |
| `ParmsImage.FieldsAreReported` | native/src/parms_decode.cpp:144-172 | fields at their offsets, in layout order, unsupported ones skipped |
| `ParmsImage.FieldIsReported` | native/src/parms_decode.cpp:149-168 | one field: an array behind a canonical pointer with at most 4096 elements, a struct within eight levels, or a scalar |
| `ParmsImage.ElementsAreReported` | native/src/parms_decode.cpp:122-138 | elements one stride apart, the first unsupported one ending the list |
| `Bytes.DigitsExactly` | native/src/parms_decode.cpp:91-95 | the decimal text of a number is the one string of digits, without a leading zero, of that value |
| `Bytes.WordAtIsRead` | native/src/parms_decode.cpp:16-23 | a word read is the number its bytes spell, least significant first, and 0 where memory cannot be read |
| `Bytes.SignedAtIsRead` | native/src/parms_decode.cpp:16-23 | a signed word read is the number its bytes are in two's complement |
| `ParmsRoundTrip.ScalarRoundTrip` | native/src/parms_decode.cpp:55-99 | whatever was written over zeros for a scalar, or nothing at all, decodes to the byte-free expected value |
| `ParmsRoundTrip.StringRoundTrip` | native/src/parms_decode.cpp:26-38 | a written FString reads back through its pool as the expected text |
| `ParmsRoundTrip.FieldsRoundTrip` | native/src/parms_encode.cpp:35-53 | for disjoint fields, decoding the encoded buffer gives the expected arguments, wherever the pools are |
| `ParmsRoundTrip.FieldRoundTrip` | native/src/parms_decode.cpp:149-168 | the same for one field, both sides cutting off at the same depth |
| `ParmsRoundTrip.ArrayRoundTrip` | native/src/parms_decode.cpp:109-140 | the same for an array of scalars, strings or structs, the 4096 cap and the int32 count included |
| `ParmsRoundTrip.ElementsRoundTrip` | native/src/parms_encode.cpp:85-96 | the same for any number of leading elements of a pool |
| `ParmsRoundTrip.SnapshotShows` | native/src/parms_encode.cpp:26-29 | buffers placed apart are all visible, whole, in one memory |
| `ParmsRoundTrip.DecodesAsExpected` | native/src/parms_decode.cpp:55-172 | any memory that shows the encoded buffers decodes to each supplied value and each absent default, in layout order |
| `ParmsRoundTrip.EncodeThenDecode` | native/src/parms_encode.cpp:136-145 | the encoder's and decoder's own loops, run one after the other, compute those expected arguments |
| `ParmsRoundTrip.StringPointerLive` | native/src/parms_encode.cpp:58-72 | the string header names a new pool of exactly the recorded units, ended by a null unit, and its capacity is its count |
| `ParmsRoundTrip.ArrayPointerLive` | native/src/parms_encode.cpp:76-101 | the array header names a pool of exactly count times element size bytes, and its capacity is its count |
| `ParmsPointers.StoredPointersLive` | native/src/parms_encode.cpp:58-101 | in the finished call every string and array header, those inside pools included, is null or points at a live pool of exactly the recorded length, strings null-terminated |
| `ParmsPointers.EncodedArrayLive` | native/src/parms_encode.cpp:76-101 | the same for one array and everything reached through it |
| `ParmsFaithful.FieldsComeBackExactly` | native/src/parms_decode.cpp:144-172 | where C++ defines the casts, the expected arguments are the supplied ones if and only if every value is in the range both sides agree on, structs with arguments are within the depth cut-off and arrays are given as such within the cap |
| `ParmsFaithful.ArrayComesBackExactly` | native/src/parms_decode.cpp:109-140 | the same for one array, its count, element size and element types included |
| `ParmsFaithful.CallComesBackExactly` | native/src/reflection_backend.cpp:311-316 | a call laid out from live reflection, encoded into the buffer sized from it and decoded from any memory that shows it, gives back what the caller supplied if and only if that is faithful in this sense |
| `ReflectLayout.ReadStructLayout` | native/src/reflect_layout.cpp:39-90 | the field-chain loop terminates on any memory and computes the layout of the recursive definition |
| `ReflectLayout.BuildSpec` | native/src/reflect_layout.cpp:48-74 | one field's spec, with nested layouts only behind plausible pointers |
| `ReflectImage.LayoutIsTheImage` | native/src/reflect_layout.cpp:39-90 | on every memory, the layout is that of the chain of property objects laid out there: names, types, offsets, element types and sizes, nested members, and the least multiple of 16 that covers them |
| `ReflectImage.LayoutIsRead` | native/src/reflect_layout.cpp:39-90 | whatever else the memory holds, a laid-out struct is read as itself |
| `ReflectImage.ChainIsRead` | native/src/reflect_layout.cpp:44-84 | a chain of property objects is read in order, up to an implausible link or 512 of them |
| `ReflectImage.PropertyIsRead` | native/src/reflect_layout.cpp:48-74 | one property object: class and name by index, size and offset at their places, the element size from the element's own object, nested structs behind plausible pointers |
| `ReflectImage.TypeOfClass` | native/src/parms_decode.cpp:58-99 | the codec's types are exactly the engine's property classes by name, everything else unsupported |
| `ReflectLayout.WalkFollowsChain` | native/src/reflect_layout.cpp:44-84 | the result is the chain of Next links in order, cut at the first implausible link or at 512 fields |
| `ReflectLayout.LayoutBounded` | native/src/reflect_layout.cpp:42-47 | at most 512 fields a level and 9 levels, on any memory, cyclic chains included |
| `ReflectLayout.SizeCovers` | native/src/reflect_layout.cpp:76-88 | the size is a multiple of 16 and covers every offset plus ElementSize |
| `ReflectLayout.ConsistentFits` | native/src/reflect_layout.cpp:76-88 | when each property is written within its ElementSize, the layout's span fits that size |
| `ReflectLayout.EncodeCall` | native/src/reflection_backend.cpp:311-316 | the buffer of layout size plus 0x40 meets the encoder's bounds, so every write lands inside it or inside a pool |
| `HookChain.Backend.SwapTick` | native/src/reflection_backend.cpp:64-82 | true exactly when the hook is free and the slot is non-null, aligned and writable; then the slot holds the trampoline and the hook what the slot held, otherwise nothing changes |
| `HookChain.Backend.HookChat` | native/src/chat_hook.cpp:43-65 | true exactly when a thunk and a handler are given, the hook is idle and a slot was found that is non-null, aligned and writable; then slot, hook, handler and global are set, otherwise memory and hook are as before and nothing is left delivering |
| `HookChain.Backend.HookGeneric` | native/src/generic_hook.cpp:43-88 | an entry is returned exactly when a handler and a thunk or slot are given, the slot passed or else the one found is non-null, aligned and writable, and there is room; it is the first free entry, its stub is in the slot and it keeps what the slot held; nothing else changes |
| `HookChain.Backend.UnhookAll` | native/src/generic_hook.cpp:90-102 | the loop puts back every active entry in index order |
| `HookChain.Backend.Unhook` | native/src/reflection_backend.cpp:380-388 | generics, then chat, then tick are put back |
| `HookChain.GenericKeepsInv` | native/src/generic_hook.cpp:43-88 | a generic install, successful or refused, keeps every slot's chain intact |
| `HookChain.StepKeepsInv` | native/src/reflection_backend.cpp:64-89 | every allowed step keeps the chain invariant |
| `HookChain.RunsKeepInv` | native/src/reflection_backend.cpp:380-388 | so does every run that never removes the hooks while a slot is stacked, over any number of install and uninstall rounds |
| `HookChain.RunsKeepChainsExactly` | native/src/reflection_backend.cpp:380-388 | in every run of the backend each chain stays intact throughout if and only if the hooks are never removed while a slot is stacked |
| `HookChain.RestoredExactly` | native/src/reflection_backend.cpp:380-388 | uninstall gives every slot its pre-install value if and only if no slot outside chat's and tick's carries two generic hooks |
| `HookChain.CallsReachTheGenuine` | native/src/generic_hook.cpp:112-134 | calling a slot delivers once to each hook on it, latest first, and reaches the genuine function once, or never when chat suppresses |
| `HookChain.InstallTakesEffect` | native/src/reflection_backend.cpp:64-82 | on any state a run can reach, an install that is not refused puts its hook in front of what calls on that slot did and changes no other slot; a refused one changes no call; when it is refused is said of the request and the state |
| `HookChain.GenericTakesEffect` | native/src/generic_hook.cpp:43-134 | the same for a generic hook, both for a slot passed and for a slot found |
| `HookChain.EveryRun` | native/src/chat_hook.cpp:73-88 | for the state reached by any disciplined run from untouched memory: calls come out as above, and uninstall restores everything if and only if no slot is stacked, as with distinct slots |
| `HookChain.StackedSlotIsLost` | native/src/generic_hook.cpp:90-102 | after the uninstall a stacked slot holds a stub of a free entry, and calls on it reach nothing |
| `HookChain.StackingIsReachable` | native/src/generic_hook.cpp:43-102 | a run of two installs on one slot after which the uninstall leaves a stub |
| `HookChain.InstalledOnOwnStub` | native/src/generic_hook.cpp:56-82 | a hook installed on a slot that holds the stub of the entry it takes chains itself, and following a call from there never gets to another function |
| `HookChain.NextRoundLoops` | native/src/generic_hook.cpp:43-134 | a run of two installs, the uninstall and one more install that ends there |
| `HookChain.ReinstalledChatSwallows` | native/src/chat_hook.cpp:52-63 | installing an active chat hook again leaves calls on its slot to the generic hooks above it alone, however many there are |
| `Worker.Instance.Accept` | native/src/plugin_runtime.cpp:188-194 | true exactly when the instance runs, is not stopping and has fewer than 256 commands queued; then the command is last in the queue and in the account, otherwise nothing changes |
| `Worker.Instance.AcceptEvent` | native/src/plugin_runtime.cpp:196-203 | the same for an event, provided in addition that its kind is subscribed, letter case apart |
| `Worker.Instance.SubscribeTo` | native/src/plugin_runtime.cpp:287-309 | a kind of 1 to 64 bytes is added in canonical form, any other is refused, and nothing else changes |
| `Worker.Instance.RequestStop` | native/src/plugin_runtime.cpp:218-223 | stop changes the stopping flag and nothing else |
| `Worker.Instance.IsIdle` | native/src/plugin_runtime.cpp:211-216 | the predicate `wait_idle` waits for, on the instance's state |
| `Worker.Instance.TakeNext` | native/src/plugin_runtime.cpp:731-745 | the locked head of the loop: leave, take a command, or take an event |
| `Worker.Instance.Finished` | native/src/plugin_runtime.cpp:751-755 | the work in flight becomes executed and the worker idle |
| `Worker.Instance.StopAndJoin` | native/src/plugin_runtime.cpp:218-225 | stop and join end, with everything ever accepted executed in order |
| `Worker.StepKeepsInv` | native/src/plugin_runtime.cpp:188-225 | every atomic step keeps accepted == executed ++ in flight ++ queued, for commands and events |
| `Worker.RunKeepsInv` | native/src/plugin_runtime.cpp:715-766 | so does every interleaving, and nothing accepted or executed is ever revised |
| `Worker.EveryInterleaving` | native/src/plugin_runtime.cpp:211-216 | when the thread has left its loop, or `wait_idle`'s predicate holds, everything accepted has been executed |
| `Worker.EveryAnswerHonoured` | native/src/plugin_runtime.cpp:188-216 | under every interleaving, the calls answered true are exactly the commands and events executed, in the order of the calls, once the thread has left its loop and whenever `wait_idle`'s predicate holds |
| `Worker.PromisedIsAccepted` | native/src/plugin_runtime.cpp:188-203 | in every run the account grows by exactly what was answered true |
| `Worker.EventAnsweredExactly` | native/src/plugin_runtime.cpp:196-309 | at any point of any run an event is accepted if and only if the worker runs, is not stopping, has fewer than 256 events queued and a handler was registered earlier for that kind, letter case apart |
| `Worker.KindsAreSubscribed` | native/src/plugin_runtime.cpp:287-309 | the kinds subscribed after a run are those registered during it |
| `Worker.CanonicalExactly` | native/src/plugin_runtime.cpp:67-73 | two kinds have one canonical form if and only if they differ in ASCII letter case alone, and that form has no capitals |
| `Worker.CommandsGoFirst` | native/src/plugin_runtime.cpp:735-744 | in every run, what the worker takes up is the next one accepted of its kind, an event only once every command accepted so far has been executed, and it leaves its loop only stopping and with everything executed |
| `Worker.StoppingDrains` | native/src/plugin_runtime.cpp:732-745 | after stop no step adds work, every worker step removes some, and one is always enabled until the thread exits |
| `Worker.DrainsWithin` | native/src/plugin_runtime.cpp:715-766 | however other threads interleave, a stopping worker exits within the remaining work and strands nothing |
| `ActionQueue.Queue.BindGameThread` | native/src/action_queue.cpp:7-10 | the thread is bound and nothing else changes |
| `ActionQueue.Queue.Offer` | native/src/action_queue.cpp:12-20 | true exactly when below capacity; then the action is last in the queue and accepted, otherwise only the count of dropped actions grows |
| `ActionQueue.Queue.ExecuteFront` | native/src/action_queue.cpp:35-45 | one turn executes the front action on the drain's calling thread, whatever happens meanwhile |
| `ActionQueue.Queue.Perform` | native/src/action_queue.cpp:43-43 | pushes, rebindings and whole drains during an execution keep the account and leave the drains around them as they were |
| `ActionQueue.Queue.DrainOn` | native/src/action_queue.cpp:22-47 | a call from another than the bound thread changes nothing; any other executes at most `max_actions` and stops short only on an empty queue |
| `ActionQueue.StepKeepsInv` | native/src/action_queue.cpp:7-47 | every step keeps accepted == popped ++ queued in order, each popped action executed or in flight once, the capacity, and offered == accepted + dropped |
| `ActionQueue.RunKeepsInv` | native/src/action_queue.cpp:7-47 | so does every interleaving of pushes, bindings and drains, nested and concurrent ones included |
| `ActionQueue.AnswersAreKept` | native/src/action_queue.cpp:12-20 | in every interleaving the accepted actions are those of the pushes answered true, in order, and the dropped count is the number answered false |
| `ActionQueue.DrainBounded` | native/src/action_queue.cpp:34-46 | in every interleaving each drain executes at most its `max_actions` |
| `ActionThread.RunStaysOnGameThread` | native/src/action_queue.cpp:7-33 | at every point of a run whatever executes now or next is on the bound thread if and only if no other thread is ever bound while a drain can still execute something |
| `ActionThread.OneBindingOneThread` | native/src/action_queue.cpp:25-33 | with one fixed binding every action of the run is executed on that one thread |
| `ActionOrder.OrderSafeExactly` | native/src/action_queue.cpp:34-45 | whichever action finishes next keeps the order of acceptance if and only if at most one is in flight |
| `ActionOrder.RunStaysInOrder` | native/src/action_queue.cpp:34-45 | at every point of a run whichever action finishes next keeps that order if and only if none is ever popped while another executes |
| `ActionOrder.OrderedRun` | native/src/action_queue.cpp:34-45 | then accepted == executed ++ in flight ++ queued in order |
| `ActionOrder.EveryInterleaving` | native/src/action_queue.cpp:7-47 | these claims, with both exact conditions, for every run from an empty queue |
| `ActionThread.RebindingSplits` | native/src/action_queue.cpp:7-10 | a run with a rebinding that executes off the bound thread |
| `ActionOrder.NestedDrainReorders` | native/src/action_queue.cpp:43-44 | a run with a drain inside an executor that finishes a later action first |
| `ActionOrder.ReboundDrainReorders` | native/src/action_queue.cpp:7-45 | a run with a drain on a newly bound thread that does the same |
| `LuaAllocator.Allocator.Allocate` | native/src/plugin_runtime.cpp:241-257 | one call with the source's wrapping arithmetic: new account, new blocks, returned pointer |
| `LuaAllocator.CallKeepsAccount` | native/src/plugin_runtime.cpp:244-256 | with true old sizes the account stays the sum of live blocks and within the limit, no subtraction wraps, the clamp never fires, and a refusal changes nothing and happens exactly when the limit would be passed |
| `LuaAllocator.RunKeepsAccount` | native/src/plugin_runtime.cpp:241-257 | so over every run of allocations, reallocations and frees |
| `JsonParser.Parser.ParseText` | native/src/json.cpp:130-178 | the string loop returns what the string grammar prescribes, or records its first error and byte position |
| `JsonParser.Parser.ParseHex4` | native/src/json.cpp:180-198 | four hex digits or the prescribed error |
| `JsonParser.Parser.Scan` | native/src/json.cpp:213-256 | the position after a number token is the one the number grammar prescribes |
| `JsonParser.Parser.ParseAnyNumber` | native/src/json.cpp:213-272 | an int64 when the token has neither fraction nor exponent and fits, a double when finite, an error otherwise |
| `JsonParser.Parser.ParseArray` | native/src/json.cpp:111-128 | the array loop against the recursive item grammar |
| `JsonParser.Parser.ParseObject` | native/src/json.cpp:81-109 | the object loop against the recursive member grammar, duplicate keys refused |
| `JsonParser.Parser.ParseAny` | native/src/json.cpp:45-70 | dispatch on the first byte after spaces |
| `JsonParser.Parser.ParseAll` | native/src/json.cpp:16-23 | the whole document, trailing characters refused |
| `JsonParser.EscapeText` | native/src/json.cpp:334-358 | the escaping loop against the bytewise definition |
| `JsonParser.StringifyTo` | native/src/json.cpp:285-322 | the appending printer extends `out` by exactly the value's text |
| `JsonRoundTrip.StringRoundTrip` | native/src/json.cpp:130-178 | every byte string, quoted and escaped, parses back to itself and leaves what follows it |
| `JsonRoundTrip.IntegerRoundTrip` | native/src/json.cpp:257-263 | every printed int64 parses back to itself before anything that cannot continue a number |
| `JsonRoundTrip.ValueRoundTrip` | native/src/json.cpp:45-128 | every value without doubles parses back to itself in any such context |
| `JsonRoundTrip.MembersRoundTrip` | native/src/json.cpp:81-109 | printed members, parsed after any members already read, rebuild the object in key order |
| `JsonRoundTrip.ParsePrinted` | native/src/json.cpp:326-332 | parse(stringify(v)) == v for every value built from null, bool, int64, byte strings, arrays and objects |
| `JsonRoundTrip.StringifyThenParse` | native/src/json.cpp:326-332 | the same through the printer's and the parser's own loops |
| `JsonRoundTrip.InsertSorted` | native/src/json.cpp:97-100 | an emplace of a new key keeps byte order and adds exactly that member |
| `JsonRoundTrip.ParsedIsCanonical` | native/src/json.cpp:45-128 | whatever is parsed has int64 integers and strictly key-ordered objects throughout |
| `JsonRoundTrip.ReprintParses` | native/src/json.cpp:326-332 | any accepted document without doubles, reprinted, parses to the same value |
| `JsonGrammar.NumberExactly` | native/src/json.cpp:213-256 | a text is scanned to its end as a number if and only if it is a number of section 6 of RFC 8259 |
| `JsonGrammar.ScannedIsGrammar` | native/src/json.cpp:213-256 | any scanned prefix is a number of that grammar, cut where the scanner says |
| `JsonSyntax.StringExactly` | native/src/json.cpp:130-178 | a text is read as a string of a given meaning if and only if section 7 of RFC 8259 derives it with that meaning, surrogate escapes apart |
| `JsonSyntax.DocumentExactly` | native/src/json.cpp:16-23 | a text parses to a value if and only if the grammar of RFC 8259 derives it, with that meaning, from supported strings, int64 or finite numbers and distinct keys |
| `JsonSyntax.DocumentParses` | native/src/json.cpp:45-128 | every such derivation, white space anywhere the grammar allows it, is accepted |
| `JsonSyntax.DocumentDerives` | native/src/json.cpp:45-128 | every accepted text has such a derivation |
| `JsonAlphabet.TokensAre` | native/src/json.cpp:45-128 | structural characters, quotes and literals are those of RFC 8259, spelled as text |
| `JsonAlphabet.SpacesAre` | native/src/json.cpp:37-43 | white space is exactly space, tab, line feed and carriage return |
| `JsonAlphabet.HexDigitsAre` | native/src/json.cpp:180-198 | a byte has a hexadecimal value exactly when it is that digit in either case |
| `JsonAlphabet.EscapesAre` | native/src/json.cpp:152-160 | a byte behind a backslash stands for another exactly as section 7 of RFC 8259 lists them |
| `JsonAlphabet.PrintedAs` | native/src/json.cpp:334-358 | each byte is printed as its two-character escape if it has one and needs it, as a lower-case unicode escape if it is another control byte, as itself otherwise |
| `JsonAlphabet.IntegersAre` | native/src/json.cpp:257-263 | integers are those of 64 bits in two's complement |
| `JsonAlphabet.LessIsLexicographic` | native/src/json.cpp:97-100 | the order of object keys is the lexicographic order of their bytes |
| `Sha256.Hasher.Transform` | native/src/sha256.cpp:90-126 | the in-place schedule and rounds compute the compression of section 6.2.2 of FIPS 180-4 |
| `Sha256.Hasher.Words` | native/src/sha256.cpp:91-99 | the word array is the message schedule |
| `Sha256.Hasher.Mix` | native/src/sha256.cpp:103-116 | one round with shifted registers is the round of the standard |
| `Sha256.RotateIs` | native/src/sha256.cpp:25-27 | two shifts and an or are a rotation, for each of the ten counts used |
| `Sha256.SumsAre` | native/src/sha256.cpp:92-107 | the sums of shifts and rotations in the code are the four sigma functions of section 4.1.2 of FIPS 180-4 |
| `Sha256Standard.ConstantsAreCubeRoots` | native/src/sha256.cpp:10-23 | each round constant is the first 32 fractional bits of the cube root of the prime of that number, for all 64 |
| `Sha256Standard.InitialIsSquareRoots` | native/src/sha256.cpp:45-47 | the initial state is the first 32 fractional bits of the square roots of the first eight primes |
| `Sha256Standard.OctetsAreBigEndian` | native/src/sha256.cpp:36-41 | the octets of a word spell its value, most significant first |
| `Sha256Standard.WordIsBigEndian` | native/src/sha256.cpp:29-34 | the word read from four octets is the number they spell, and writing it gives them back |
| `Sha256Example.HashOfAbc` | native/src/sha256.cpp:49-126 | the digest of "abc" is the published one, through all 64 rounds |
| `Sha256.Hasher.Update` | native/src/sha256.cpp:49-62 | the message grows by the bytes, whatever the buffer held; a finished object ignores them |
| `Sha256.Hasher.Finish` | native/src/sha256.cpp:64-88 | the digest is the one-shot hash of everything updated, again on every later call |
| `Sha256.Hasher.Pad` | native/src/sha256.cpp:66-80 | the one- and two-block paths both hash the message with the padding of section 5.1.1 |
| `Sha256.PaddingIs` | native/src/sha256.cpp:66-80 | buffered tail, zeros and length are exactly that padding, with the fewest zeros |
| `Sha256.LengthFits` | native/src/sha256.cpp:76-78 | the eight length octets hold any bit length below 2^64 exactly |
| `Sha256.HashChunks` | native/src/sha256.cpp:49-126 | any way of cutting a message into updates gives the digest of the whole; finishing again and updating late change nothing |
| `Utf16.ConvertToUtf16` | native/src/utf16.cpp:30-73 | the reading loop computes the decoding of one code point after another |
| `Utf16.ConvertToUtf8` | native/src/utf16.cpp:75-100 | the writing loop, surrogate pairs skipped over, computes the encoding of one code point after another |
| `Utf16.DecodeAppended` | native/src/utf16.cpp:8-24 | the bytes of any scalar value are one UTF8-char of RFC 3629 and decode to it |
| `Utf16.AppendDecoded` | native/src/utf16.cpp:42-62 | any UTF8-char decodes to a scalar value whose bytes it is |
| `Utf16.Utf8KeepsOrder` | native/src/utf16.cpp:8-24 | the bytes of code points sort as the code points do, which with the two rows above leaves no other assignment of UTF8-chars to scalar values |
| `Utf16.UnitsAre` | native/src/utf16.cpp:63-71 | a code point up to U+FFFF is one unit, any other the surrogate pair of RFC 2781 |
| `Utf16.IllFormedReads` | native/src/utf16.cpp:30-73 | of bytes that start with no UTF8-char, the three-byte form of a surrogate gives that surrogate and anything else U+FFFD; reading goes on behind a complete sequence, and behind one byte otherwise |
| `Utf16.IllFormedConverts` | native/src/utf16.cpp:30-73 | the same for the whole conversion: that unit, then what the rest converts to |
| `Utf16.Utf16First` | native/src/utf16.cpp:30-100 | any units give well-formed UTF-8, which reads back as the units with exactly the unpaired surrogates replaced by U+FFFD |
| `Utf16.Utf16FirstExactly` | native/src/utf16.cpp:75-100 | the units come back unchanged if and only if no surrogate is unpaired |
| `Utf16.Utf8FirstExactly` | native/src/utf16.cpp:30-100 | the bytes come back unchanged if and only if they are well-formed UTF-8, and then the units between are well-formed UTF-16 |
| `FNamePool.WalkBlock` | native/src/fname_pool.cpp:94-111 | the walk over a block's bytes finds the offset the recursive walk finds |
| `FNamePool.LookupName` | native/src/fname_pool.cpp:73-114 | the block loop returns the index that lookup is defined to return |
| `FNamePool.Latin1ToUtf8` | native/src/fname_pool.cpp:57-70 | the conversion loop against the bytewise definition |
| `FNamePool.WalkFinds` | native/src/fname_pool.cpp:94-111 | in a block of 2-aligned entries the walk finds exactly the first narrow entry with the name's bytes |
| `FNamePool.LookupIsFirst` | native/src/fname_pool.cpp:73-114 | in a laid-out pool lookup returns the index of the first such entry of all blocks, 0 if there is none |
| `FNamePool.EntryResolvesTo` | native/src/fname_pool.cpp:32-71 | in a laid-out pool every entry of a block up to 0xFFFF, the one at index 0 apart, resolves to the UTF-8 of its characters: of its UTF-16 units when wide, of its Latin-1 code points when not |
| `FNamePool.Latin1IsCodePoints` | native/src/fname_pool.cpp:57-70 | Latin-1 bytes convert to the UTF-8 of the code points of those numbers |
| `FNamePool.LookupResolvesExactly` | native/src/fname_pool.cpp:32-114 | whatever the pool holds, a non-zero index resolves to the name looked up if and only if it was found in a block up to 0xFFFF, or the block the index names instead has that name at the same offset |
| `FNamePool.LookupResolves` | native/src/fname_pool.cpp:32-114 | so it always does for a current block up to 0xFFFF |
| `FNamePool.LookupZeroExactly` | native/src/fname_pool.cpp:73-114 | the index is 0 if and only if the name is not found, or at offset 0 of block 0 or of a block that shares its index |
| `FNamePool.HighBlockLost` | native/src/fname_pool.cpp:80-107 | a memory, its block table mapped and null but for one block, in which a name is found in block 0x10000, has a non-zero index, and resolves to nothing |
| `FNamePool.NameArgumentSurvives` | native/src/fname_pool.cpp:32-114 | a name argument comes back as supplied if and only if it is empty, or has a non-zero index and is ASCII in a block up to 0xFFFF, or above that is what the entry the index names instead holds |
| `ReflectionResolver.IsMapped` | native/src/reflection_resolver.cpp:76-81 | true exactly when some region holds the whole word |
| `ReflectionResolver.ScanChunk` | native/src/reflection_resolver.cpp:105-120 | the tally of matches is extended by exactly the chunk's words |
| `ReflectionResolver.ScanRegion` | native/src/reflection_resolver.cpp:95-122 | short reads are resumed and the tally covers the region, or only what was read when a read fails |
| `ReflectionResolver.Resolve` | native/src/reflection_resolver.cpp:69-134 | any slot returned is genuine, and when no read fails a slot is returned if and only if the flat scan has exactly one |
| `ReflectionResolver.TallyWord` | native/src/reflection_resolver.cpp:107-119 | testing one more word keeps set, count and last match right |
| `ReflectionResolver.MatchesIs` | native/src/reflection_resolver.cpp:107-119 | a word matches exactly when its bytes spell the thunk, it lies outside the scan buffer, and the bytes `func_offset` before it lie in a scanned region and spell the vtable |
| `HandleTable.Handles.Add` | native/include/palmod/handle_table.hpp:18-29 | the first empty slot, or a new one, takes the value; the handle has the slot number plus one in its low word and the generation in its high word |
| `HandleTable.Handles.Find` | native/include/palmod/handle_table.hpp:31-38 | the value of a live handle, nothing for any other number |
| `HandleTable.Handles.Remove` | native/include/palmod/handle_table.hpp:40-50 | a live handle is erased and its slot's generation advanced |
| `HandleTable.InsertAgrees` | native/include/palmod/handle_table.hpp:18-29 | the issued handle is non-zero, held by no live value, and mapped to the value |
| `HandleTable.EraseAgrees` | native/include/palmod/handle_table.hpp:40-50 | erase removes exactly that handle from the abstract map |
| `HandleTable.RunAgrees` | native/include/palmod/handle_table.hpp:18-67 | over every run the table answers every handle as the abstract map does |
| `HandleTable.ErasedStaysDead` | native/include/palmod/handle_table.hpp:40-50 | when an erased handle can resolve again, exactly, and that it cannot within 2^32 - 2 erases of its slot |
| `HandleTable.HandleComesBack` | native/include/palmod/handle_table.hpp:18-50 | a run of 2^32 - 1 erases after which the handle of an erased value gives another value |
| `CommandLine.AppendArg` | native/src/runtime.cpp:206-220 | an argument is refused exactly when too long or carrying a control byte, and otherwise appended quoted and escaped |
| `CommandLine.ControlCommandLine` | native/src/runtime.cpp:192-227 | a line is printed exactly when every limit is met |
| `CommandLine.ParseSlashCommand` | native/src/command_router.cpp:8-70 | the tokenizer loop against the bytewise scan, every error in its place |
| `CommandLine.ScanArgs` | native/src/command_router.cpp:25-55 | scanning printed arguments adds exactly the non-empty ones to the tokens |
| `CommandLine.PrintedLineParses` | native/src/command_router.cpp:8-70 | a printed line of a command in the router's grammar parses to that command and its non-empty arguments, within all limits |
| `CommandLine.PrintThenParse` | native/src/runtime.cpp:192-227 | through both loops, the arguments come back exactly if and only if none is empty |
| `CommandMeaning.EveryLineMeans` | native/src/command_router.cpp:8-70 | every line within 2048 bytes reads as unquoted, quoted and escaped letters and gaps up to its first flaw, and parses to the words so written or to the error of that flaw |
| `CommandMeaning.LineParses` | native/src/command_router.cpp:8-70 | the same for one line given as such marks |
| `CommandMeaning.OtherTexts` | native/src/command_router.cpp:8-16 | a text without a leading slash is no command, and a longer line is refused |
| `CommandMeaning.PrintedLine` | native/src/runtime.cpp:192-227 | a printed line is a slash, the command, and each argument behind a space and between quotes with only quotes and backslashes escaped |
| `Paginate.Pages` | sdk/lua/stdlib.lua:87-103 | the loop's pages are the joined groups of the greedy split, one empty page when there are none |
| `Paginate.PaginationIsOptimal` | sdk/lua/stdlib.lua:87-103 | when no item but the last is empty: the items in order, every page fitting or a single item, and no such split with fewer pages |
| `Paginate.FewestPages` | sdk/lua/stdlib.lua:92-98 | every order-preserving split whose pages fit has at least as many pages |
| `Paginate.PagesAreFull` | sdk/lua/stdlib.lua:92-98 | whatever the items, no page could have taken the first item of the next; when no item but the last is empty, no other split has full pages that fit |
| `Paginate.JoinedIs` | sdk/lua/stdlib.lua:94-100 | a page is its items with a comma and a space between each and the next |
| `Paginate.WidthKeptExactly` | sdk/lua/stdlib.lua:92-96 | every page fits at every width, a single item counting as fitting, if and only if no item but the last is empty |
| `Paginate.FitExactly` | sdk/lua/stdlib.lua:92-96 | at one given width, whatever the items, every page fits if and only if those of several items that an empty item opened do |
| `Paginate.OverflowIsLeadingEmpties` | sdk/lua/stdlib.lua:92-98 | whatever the items, a page less the empty items it opens with fits or is a single item, and each of those adds two uncounted bytes |
| `Paginate.NarrowExactly` | sdk/lua/stdlib.lua:84-98 | when no item but the last is empty, no page is wider than the width if and only if no item is |
| `Paginate.EmptyItemOverflows` | sdk/lua/stdlib.lua:92-96 | an input whose page is wider than the width |
| `Paginate.PagesSplitBackExactly` | sdk/lua/stdlib.lua:94-100 | cutting the pages at the separator gives the groups, hence the items, if and only if no item contains it |
| `Quarantine.Launcher.Prune` | crates/palmod-run/src/main.rs:506-511 | the retained failures are those in the window, in order |
| `Quarantine.Launcher.Run` | crates/palmod-run/src/main.rs:114-212 | what is saved after a launch, for each way it can go |
| `Quarantine.PruneTwice` | crates/palmod-run/src/main.rs:506-511 | with a clock that does not go back, pruning again later is pruning once |
| `Quarantine.InWindowKeeps` | crates/palmod-run/src/main.rs:506-511 | pruning keeps a crash, as often as it is listed, exactly when it is at most the window's length old and not in the future |
| `Quarantine.LaunchKeepsMatch` | crates/palmod-run/src/main.rs:114-212 | a launch keeps every profile's saved record equal to one filter of its crash history |
| `Quarantine.StoredIsOneFilter` | crates/palmod-run/src/main.rs:195-212 | over every launch history the stored list is one filter of the crashes since the last clean exit or clear |
| `Quarantine.EnteredExactly` | crates/palmod-run/src/main.rs:195-212 | a launch saves the mark of an unquarantined profile if and only if it crashes and at least `limit` crashes of its history, that one included, are in the window; the mark is the time at which it is set |
| `Quarantine.EnteredInEveryHistory` | crates/palmod-run/src/main.rs:114-212 | the same after every launch history from a clean state, with the crashes since the last clean exit or clear |
| `Quarantine.StaysUntilCleared` | crates/palmod-run/src/main.rs:122-137 | a saved mark, and its whole record, survives every run of launches without a clear |
| `Quarantine.ClearLifts` | crates/palmod-run/src/main.rs:122-129 | after a launch with a clear the mark is there if and only if that launch alone crashed into it |

## Left out

- Floating point: a number argument is a `real`, so NaN, infinities and the rounding of 64-bit integers through double are not modelled; the IEEE 754 bit patterns of float and double properties are arbitrary functions; casts out of range, undefined in C++, wrap in the model.
- `ParmsEncode.Encoder.Array`: `count * inner_size` is computed without overflow of `size_t`.
- `ParmsDecode.Fields`: a fault-safe read either delivers all bytes or leaves zero; partial fills and address wrap-around near 2^64 are not modelled.
- The encoder's buffers are sequences in one list, replaced on each write, not arrays with raw pointers into them; pointers are the addresses the buffers are placed at.
- `ParmsFaithful.FieldsComeBackExactly`: only for inputs whose casts from double are defined; the others are undefined in C++.
- `FNamePool.LookupResolvesExactly`: raw reads of unreadable memory, undefined in the source, count as refused.
- `ActionQueue.Queue.Perform`: what other threads do during an execution is a list of whole pushes, bindings and drains; their finer interleavings are covered by the step relation and its runs.
- `ReflectionResolver.Resolve`: the memory does not change during the scan, regions are aligned and disjoint, and short reads are multiples of 8, as page-granular reads are.
- `HookChain.Backend.HookGeneric`: a second hook table competing for the stub pool, logging and the decoding of the delivered event are not modelled; whether a slot can be made writable and what the memory scan found are inputs.
- `HandleTable.Handles.Add`: tables of more than 2^32 - 2 slots, whose indices would no longer fit a handle.
- `CommandLine.ControlCommandLine`: the JSON type checks on the parameters are not modelled; command and arguments are byte strings.
- `JsonParser.StringifyTo`: the stream printer's text for a double is not modelled and doubles keep their token; whether a token converts to a finite double is an input. The stack depth of nested documents is not bounded, as in the source.
- `JsonSyntax.StringExactly`: the grammar's characters are taken bytewise; like the parser, it does not ask for well-formed UTF-8.
- Locks, condition variables, timeouts and the Lua API: a lock-held section is one step, a callback is one opaque step.
- Launcher file I/O and profile selection: the saved state is a map, the selected profile and the clock readings are inputs.
- Profile validation, fingerprinting, anchor checks, player directory, admin lookup, pointer chains, `find_property`, file hashing and hex output: they check fields one by one, follow a few pointers, or format a result that is modelled here.
- Engine readiness, the Frida backend, the control server, `palmodctl` and the Python, Ghidra and Frida tools: I/O plumbing around a live process.
