# clither core, modelled in Dafny

This project models the core of the clither game engine. It covers:

- **Event system.** Events are registered under unique names in a game's event directory. Listeners are registered on and removed from an event, and firing an event calls its listeners.
- **Game object lifecycle.** `game_create` and `game_destroy` acquire and release the game's parts through a chain of failure labels.
- **Vulkan renderer bootstrap.** This covers loading the library and its four entry points, negotiating the validation layers and instance extensions against what the driver reports, cleaning those lists up again, and creating the instance.
- **Result-code lookup.** This is the string table that maps a Vulkan result code to its text.
- **Utility library:**
  - the string helpers of `string.c`
  - the 32-bit rotates and Jenkins' one-at-a-time hash
  - the ring buffer's create, init and clear functions
  - the documented contract of the ordered vector

Allocations, `module_open` and `module_sym` results, the driver's enumeration results and the result of `vkCreateInstance` are parameters of the model. Each operation is a pure function of its inputs and of these oracle values.

Resource handling is stated on traces of `Acquire`/`Release` actions (module `Resources`). There are two views of a trace:
- **Stack view.** `Outstanding`/`Balanced` replays the trace, and a release must free the most recent resource still held. This is the discipline of the engine's goto-label rollback chains.
- **Order-free view.** `Leaked` counts what was acquired and never released, in whatever order.

Modules:
- `Base`: shared vocabulary
- `Hash`: `util/src/hash.c`
- `Strings`: `util/src/string.c`
- `Vector`: the ordered and unordered vector contract
- `RingBuffer`: `util/src/ring_buffer.c`
- `Resources`: acquisition and release traces
- `Events`: `game/src/event.c` and `event.h`
- `Lifecycle`: `game/src/game.c`
- `ResultCodes`: `game/src/vulkan_utils.c`
- `Vulkan`: `game/src/renderer_vulkan.c`

## Model

| member | source | states |
|---|---|---|
| Base.CountNoDuplicates | game/include/game/event.h:83-92 | in a duplicate-free listener list each callback occurs exactly once or not at all |
| Hash.Rotl32 | util/src/hash.c:15-19 | bit i of the value lands on bit i + count (modulo 32) of the result, for every count |
| Hash.Rotr32 | util/src/hash.c:21-25 | bit i of the value lands on bit i - count (modulo 32) of the result, for every count |
| Hash.RotrUndoesRotl | util/src/hash.c:15-25 | rotating right by a count undoes rotating left by the same count and vice versa, for every count including 0 and multiples of 32 |
| Hash.RotateCountModulo32 | util/src/hash.c:15-25 | only the count masked to its low five bits matters, so no count ever shifts by 32 or more |
| Hash.RotateByZero | util/src/hash.c:15-25 | a rotate by a multiple of 32 returns the value unchanged |
| Hash.RotlIsRotrOfComplement | util/src/hash.c:15-25 | a left rotate by c is a right rotate by 32 - c |
| Hash.HashJenkinsOaat | util/src/hash.c:28-42 | the loop computes the finaliser applied to the 32-bit wrapping fold of the per-byte mixing round over exactly the first len bytes, each char sign-extended |
| Hash.AccumulateFromAgrees | util/src/hash.c:32-37 | the per-byte loop is a left fold: hashing a + b continues from the state after a |
| Hash.HashReadsOnlyPrefix | util/src/hash.c:28-42 | messages that agree on their first len bytes hash equally |
| Hash.EmptyHashIsZero | util/src/hash.c:28-42 | the hash of zero bytes is 0 |
| Hash.AsWrittenHashOfA | util/src/hash.c:38-40 | as written, the hash of "a" is 0xaf8f5f08, which differs from the published one-at-a-time value |
| Hash.PublishedHashOfA | util/src/hash.c:38-40 | with the published finaliser the hash of "a" is 0xca2e9442 |
| Strings.MallocString | util/src/string.c:91-106 | given a C string, the copy equals it and is a C string; the result is NULL exactly when the allocation fails |
| Strings.CatStrings | util/src/string.c:58-88 | the buffer holds the arguments joined in order, NULL arguments contributing nothing; its length is the sum of the lengths and it is a C string; NULL exactly when the allocation fails |
| Strings.ConcatLength | util/src/string.c:66-73 | the length computed in the first pass is the length of the joined result |
| Strings.StrtokR | util/src/string.c:160-189 | every token returned is non-empty and free of the delimiter; the save pointer stays in the buffer |
| Strings.ExhaustedStaysExhausted | util/src/string.c:169-171 | once the save pointer is NULL every call returns NULL and changes nothing |
| Strings.StepOverwritesOnlyDelimiter | util/src/string.c:174-183 | a step replaces exactly the delimiter it found with a terminator and moves the save pointer onto it, or sets it to NULL when no delimiter is left |
| Strings.RunReportsFields | util/src/string.c:160-189 | tokenising a string reports its delimiter-separated fields in order, each empty field as NULL |
| Strings.JoinFields | util/src/string.c:160-189 | the fields are delimiter-free and joining them with the delimiter gives the string back |
| Strings.Crlf2Lf | util/src/string.c:242-260 | the corrected result holds no CR, every other character occurs in it as often as in the input, and it is no longer than the input |
| Strings.Crlf2LfAppend | util/src/string.c:250-259 | CR removal works character by character: on a concatenation it concatenates the two results, so the kept characters stay in order |
| Strings.Crlf2LfIdempotent | util/src/string.c:242-260 | removing CRs twice removes nothing more, and a string without CRs is unchanged |
| Strings.Crlf2LfAsWritten | util/src/string.c:250-259 | as written: a result is never longer than the input, and a string without CR comes back unchanged |
| Strings.Crlf2LfAsWrittenAgrees | util/src/string.c:250-259 | the loop as written removes the CRs exactly when every CR is followed by a character other than CR |
| Strings.Crlf2LfAsWrittenCounterexamples | util/src/string.c:250-259 | as written, "\r\r" keeps one CR and "a\r" reads past its terminator |
| Strings.StringReverse | util/src/string.c:263-277 | the result has the same length and holds the characters in reverse order |
| Strings.ReverseTwice | util/src/string.c:263-277 | reversing twice gives the string back |
| Strings.LowerCharMapsLetters | util/src/string.c:288-289 | codes 'A' to 'Z' move up by 32 and every other character is kept |
| Strings.StringToLower | util/src/string.c:280-290 | the length is kept, every upper-case letter becomes its lower-case partner 32 code points up, and every other character is kept |
| Strings.ToLowerSpec | util/src/string.c:280-290 | no upper-case letter remains, and lowering twice is lowering once |
| Strings.StrToWcs | util/src/string.c:192-214 | each character is widened as a signed `char`: the wide value lies in -128..127 and its low byte is the character; the length is kept and no wide character is zero; NULL exactly when the allocation fails |
| Strings.WcsToStr | util/src/string.c:217-239 | the buffer holds each wide character's low byte, one per wide character; it is a C string of that length exactly when no low byte is zero, and otherwise C reads it as ending at the first zero byte; NULL exactly when the allocation fails |
| Strings.NarrowAfterWiden | util/src/string.c:192-239 | narrowing a widened string gives it back |
| Strings.WidenAfterNarrow | util/src/string.c:192-239 | widening a narrowed wide string gives it back exactly when every wide character fits a signed char |
| ResultCodes.ResultToString | game/src/vulkan_utils.c:30-48 | a string is returned exactly for the codes -12..5 and the five extension codes, and it is one of the table's entries |
| ResultCodes.ResultIndex | game/src/vulkan_utils.c:35-46 | the slot read is within the 23-entry table exactly for the accepted codes; others fail the assertion |
| ResultCodes.LookupNamesTheCode | game/src/vulkan_utils.c:4-48 | the lookup accepts exactly the codes that have a Vulkan name, and the string it returns starts with that name |
| ResultCodes.LookupIsBijective | game/src/vulkan_utils.c:35-46 | distinct accepted codes read distinct slots, and slots 0..17 are read by 5 - slot |
| ResultCodes.KhrSlots | game/src/vulkan_utils.c:37-41 | the five extension codes read slots 18 to 22 in order |
| ResultCodes.LookupExamples | game/src/vulkan_utils.c:5-11 | VK_SUCCESS reads slot 5 and its string, host-memory failure reads slot 6, codes 6 and -13 are rejected |
| ResultCodes.TextStartsWithName | game/src/vulkan_utils.c:4-28 | every table string starts with its result's name followed by " - " |
| Vector.Init | util/include/util/ordered_vector.h:47-57 | an initialised vector has no elements and no allocation |
| Vector.Push | util/include/util/ordered_vector.h:89-104 | a push appends at the end and succeeds exactly when there is room or the reallocation succeeds; a full buffer grows to double its capacity; a failed push changes nothing |
| Vector.Pop | util/include/util/ordered_vector.h:127-138 | a pop removes and returns the last element, or returns NULL on an empty vector and keeps it |
| Vector.Back | util/include/util/ordered_vector.h:140-151 | the last element, or NULL when there is none |
| Vector.GetElement | util/include/util/ordered_vector.h:203-217 | the element at the index, or NULL exactly when the index is out of bounds |
| Vector.Insert | util/include/util/ordered_vector.h:170-183 | the new element sits at the index, earlier elements stay and later ones move up one; a failed reallocation changes nothing |
| Vector.EraseIndex | util/include/util/ordered_vector.h:185-193 | the element at the index is removed, earlier ones stay and later ones move down one |
| Vector.EraseIndexKeepsOrder | util/include/util/ordered_vector.h:185-193 | the erase cuts one position out and removes exactly that element from the multiset |
| Vector.EraseUnordered | util/include/util/ordered_vector.h:15-17 | the unordered erase shortens the vector by one, moves the last element into the gap and leaves every other position and the allocation alone |
| Vector.EraseUnorderedIsRemoval | game/src/event.c:154-159 | the unordered erase removes exactly the erased element from the multiset of elements |
| Vector.EraseUnorderedReorders | game/src/event.c:154-159 | the unordered erase moves the last element into the gap, unlike the ordered erase |
| Vector.Clear | util/include/util/ordered_vector.h:67-75 | clearing forgets the elements and keeps the allocation |
| Vector.ClearFree | util/include/util/ordered_vector.h:77-82 | clearing with free forgets the elements and the allocation |
| Vector.PushThenPop | util/include/util/ordered_vector.h:89-138 | popping right after a successful push returns the pushed element and the elements as they were |
| Vector.InsertThenErase | util/include/util/ordered_vector.h:170-193 | erasing the element just inserted restores the elements |
| Vector.PushAllAppends | util/include/util/ordered_vector.h:89-104 | pushing a sequence element by element appends it in order and never shrinks the allocation |
| RingBuffer.Init | util/src/ring_buffer.c:21-27 | an initialised buffer holds no elements, has read position 0 and write position 1 |
| RingBuffer.Create | util/src/ring_buffer.c:6-18 | creation fails exactly when the allocation does, and otherwise gives an initialised buffer of the element size |
| RingBuffer.Clear | util/src/ring_buffer.c:39-45 | clearing empties the vector, keeps its allocation and resets both positions |
| RingBuffer.ClearFree | util/src/ring_buffer.c:48-52 | clearing with free empties the vector and frees it but leaves both positions as they were |
| RingBuffer.ClearRestoresInit | util/src/ring_buffer.c:21-45 | clearing gives the initialised buffer apart from the kept allocation, and is idempotent |
| RingBuffer.ClearFreeAfterClearIsInit | util/src/ring_buffer.c:21-52 | clear then clear-with-free gives exactly an initialised buffer, while clear-with-free alone does not reset positions |
| Resources.RollbackIsBalanced | game/src/game.c:27-30 | acquiring resources and releasing them in exact reverse leaves nothing held |
| Resources.ReleaseInSameOrderFails | game/src/game.c:27-30 | releasing two resources in the order they were acquired breaks the stack discipline |
| Resources.BalancedReleasesAll | game/src/game.c:27-30 | a balanced trace releases exactly what it acquires |
| Resources.LeakFreeNested | game/src/renderer_vulkan.c:122-133 | leak-free nested pieces make a leak-free whole |
| Events.SystemCreate | game/src/event.c:25-33 | creation always succeeds and gives an empty, well-formed directory for the game |
| Events.Get | game/src/event.c:110-117 | an event is found exactly when its name is in the directory, and the event found carries that name |
| Events.Register | game/src/event.c:50-82 | registration succeeds exactly when all allocations succeed and the name is unused; a failure changes nothing and frees what it allocated in reverse; a success files a fresh event with no listeners under the name and leaves every other entry alone |
| Events.Unregister | game/src/event.c:85-107 | an owned event is removed and its name no longer found; an event the game does not own changes nothing; other events are untouched |
| Events.SystemDestroy | game/src/event.c:36-47 | every registered event is freed and the directory is left empty |
| Events.RegisterListener | game/src/event.c:120-144 | a callback is added at the end exactly when it is not already registered; a refused callback changes nothing |
| Events.UnregisterListener | game/src/event.c:147-166 | a registered callback is removed by moving the last listener into its position, which is the unordered erase at the callback's index, with exactly one occurrence gone from the multiset of listeners; an unregistered one changes nothing |
| Events.UnregisterAllListeners | game/src/event.c:169-173 | the event's listeners are emptied and their allocation freed, nothing else changes |
| Events.Fire | game/include/game/event.h:107-111 | firing calls each listener once, in vector order, with the event and the data |
| Events.FireCallsEachListenerOnce | game/include/game/event.h:83-111 | a registered callback is called exactly once per firing and an unregistered one never |
| Events.RegisterThenUnregister | game/src/event.c:50-107 | unregistering a freshly registered event restores the system exactly |
| Events.RegisterThenUnregisterListener | game/src/event.c:120-166 | unregistering a just-registered listener restores the listener list |
| Events.RegisterAndUnregisterEventsScenario | tests/src/misc/game/test_event.cpp:18-41 | two events are found by name after registration and disappear one by one when unregistered |
| Events.DuplicateNameAndDoubleUnregister | game/src/event.c:73-104 | registering a name already in use fails and changes nothing; in the model a second unregister of the same event takes the not-owned path and is refused (in the source that call reads the freed event) |
| Events.FireScenario | tests/src/misc/game/test_event.cpp:70-93 | with two listeners each is called once; after the first is removed only the second is |
| Events.FireOrderAfterRemoval | game/src/event.c:154-159 | removing the first of three listeners moves the last into its place, so the firing order changes |
| Lifecycle.Chain | game/src/game.c:13-30 | the chain succeeds exactly when every step does; a success holds every part; a failure is balanced and touches only parts acquired before the failing step |
| Lifecycle.Create | game/src/game.c:9-31 | creation succeeds exactly when the record, the name copy and the renderer are obtained; a success holds all four parts, copies the name and has an empty event directory; a failure releases everything in reverse; a failed name copy never creates the event system or renderer |
| Lifecycle.Destroy | game/src/game.c:34-44 | destruction releases the renderer, the event system, the name and the record, the reverse of the order creation acquires them, and frees every registered event |
| Lifecycle.CreateThenDestroyIsBalanced | game/src/game.c:34-44 | destroying a created game releases every part creation acquired, in reverse order |
| Lifecycle.RendererFailureRollsBack | game/src/game.c:22-30 | a renderer failure releases the event system, the name and the record, in that order |
| Lifecycle.NameFailureFreesRecordOnly | game/src/game.c:16-17 | a failed name copy frees only the game record |
| Vulkan.UnloadLibrary | game/src/renderer_vulkan.c:84-91 | unloading closes the library exactly when one is open, and always leaves the handle NULL |
| Vulkan.UnloadIsIdempotent | game/src/renderer_vulkan.c:84-91 | unloading twice is unloading once; the second call closes nothing |
| Vulkan.LoadLibrary | game/src/renderer_vulkan.c:59-81 | as written: loading succeeds exactly when the library opens and all four symbols resolve; a success holds exactly the new library, whatever was open before; a failure leaves no library open and its trace balanced, keeping the symbols already stored |
| Vulkan.LoadLibraryChecked | game/include/game/renderer_vulkan.h:10-18 | loading succeeds exactly when no library is open yet, the library opens and all four symbols resolve; a failure keeps the library that was open and its trace balanced |
| Vulkan.LoadCheckedThenUnloadLeaksNothing | game/src/renderer_vulkan.c:59-91 | whatever library was open before, a checked load followed by an unload leaves no library handle open |
| Vulkan.LoadOverOpenLibraryLeaks | game/src/renderer_vulkan.c:62 | as written, loading over open library 1 succeeds with library 2, and after unloading, library 1 is still open |
| Vulkan.LoadThenUnloadIsBalanced | game/src/renderer_vulkan.c:59-91 | a successful load followed by an unload closes the library it opened |
| Vulkan.MatchNames | game/src/renderer_vulkan.c:202-219 | the matching loops enable the requested names that are available, in requested order |
| Vulkan.Negotiate | game/src/renderer_vulkan.c:202-219 | the enabled list is never longer than the request |
| Vulkan.NegotiateMembers | game/src/renderer_vulkan.c:202-219 | a name is enabled exactly when it is both requested and available |
| Vulkan.NegotiateIsFilter | game/src/renderer_vulkan.c:202-219 | the enabled names are the requested ones filtered front to back |
| Vulkan.NegotiateDistinct | game/src/renderer_vulkan.c:202-219 | a duplicate-free request enables no name twice |
| Vulkan.NegotiateFitsBuffer | game/src/renderer_vulkan.c:186-210 | with a duplicate-free request the enabled names fit the buffer sized by the available count |
| Vulkan.FillInAsWritten | game/src/renderer_vulkan.c:152-226 | as written: with nothing available the list stays unset; allocation failures free what they took; otherwise the list holds the negotiated names and the name buffer stays allocated, even when no name matched |
| Vulkan.FillIn | game/src/renderer_vulkan.c:152-226 | corrected fill-in: the list stays paired (NULL exactly when the count is zero), holds the negotiated names, and leaves allocated only a non-empty name buffer |
| Vulkan.CleanUp | game/src/renderer_vulkan.c:229-241 | clean-up trips its assertion exactly on a zero count with a non-NULL pointer; otherwise it resets the list and frees the buffer exactly when the count is non-zero |
| Vulkan.PairedCleansUp | game/src/renderer_vulkan.c:229-241 | cleaning up a paired list never trips the assertion |
| Vulkan.FillInUnpairedWhenNothingMatches | game/src/renderer_vulkan.c:217-234 | when layers are available but none is requested, the fill-in as written leaves a count of 0 with a non-NULL pointer and clean-up trips its assertion; the corrected fill-in does not |
| Vulkan.CreateInstanceAsWritten | game/src/renderer_vulkan.c:94-142 | as written: vkCreateInstance is called exactly when both fill-ins succeed, the call succeeds exactly when it returns VK_SUCCESS, and a failure code vulkan_result_to_string has no name trips its assertion |
| Vulkan.CreateInstance | game/src/renderer_vulkan.c:94-142 | vkCreateInstance is called exactly when both fill-ins succeed; success means it returned VK_SUCCESS; the run trips the assertion in vulkan_result_to_string exactly when the call returned a failure code with no name; otherwise no name buffer is left allocated on any path |
| Vulkan.ExtensionsThenCreate | game/src/renderer_vulkan.c:122-141 | after a successful layer fill-in, vkCreateInstance is called exactly when the extension fill-in succeeds; the assertion trips exactly on an unnamed failure code after that call; otherwise success means VK_SUCCESS and nothing is left allocated |
| Vulkan.AfterFillIns | game/src/renderer_vulkan.c:124-141 | after a successful layer fill-in, vkCreateInstance is called exactly when the extension fill-in succeeds; the assertion trips exactly on an unnamed failure code after that call; otherwise success means it returned VK_SUCCESS and both lists are cleaned up on every path |
| Vulkan.CleanedUp | game/src/renderer_vulkan.c:132-133 | cleaning up after a corrected fill-in never trips the assertion and frees what the fill-in left allocated |
| Vulkan.CreateInstanceLeaksLayerList | game/src/renderer_vulkan.c:122-125 | when the extension fill-in fails after layers matched, the version as written leaks the layer name list while the corrected one leaks nothing |
| Vulkan.RequestedNamesAreDistinct | game/src/renderer_vulkan.c:100-110 | the requested layer and extension names are duplicate-free |

## Left out

- Logging (`log_message`), the `fprintf` diagnostics and the debug allocator of `memory.h` are not modelled. Allocation success is an argument wherever the source allocates.
- Dynamic loading is left out. `module_open`, `module_sym` and `module_close` are oracle values, and a handle is a number. The library path constant does not matter to the model.
- The Vulkan allocation callbacks are not modelled: with the debug allocator off they are unused.
- `vulkan_destroy_instance` is not modelled: it is a single call into the Vulkan driver.
- The driver's enumeration result is taken as one snapshot. The source calls each enumeration twice and assumes the second call reports the same count.
- `vkCreateInstance` is an oracle returning a result code. The instance handle and `VkApplicationInfo` are not modelled.
- Vulkan.FillIn and Vulkan.FillInAsWritten require a duplicate-free request. The name buffer is sized by the available count, and only a duplicate-free request provably fits (the requests `vulkan_create_instance` makes are duplicate-free).
- The bst_hashed_vector directory (`bst_hashed_vector.c`) is not part of this model. The event directory is a map from names to events, and `bsthv_insert` is assumed to refuse a name already present.
- Events.RegisterListener assumes `unordered_vector_push_emplace` succeeds. The source writes through its result without checking for NULL, so a failed reallocation is undefined behaviour there.
- Events.RegisterThenUnregisterListener restores the listener items but not the capacity, because a push may have grown the allocation.
- The `data` passed to `event_fire` is an opaque value, and a callback's effect is not modelled. Firing records the calls it makes.
- `ordered_vector.c` and `unordered_vector.c` are not part of this model. The vector follows the contract documented in `ordered_vector.h`, plus the move-last-into-gap erase that `event.c` relies on. The first allocation holding one element is an assumption of the model.
- `ordered_vector_push_vector`, `push_emplace`, `insert_emplace`, `erase_element`, `create` and `destroy` are not modelled separately. The emplace forms are push and insert without a value, `erase_element` is `erase_index` at the element's position, and create/destroy only allocate and free. A multi-element push's growth rule is not documented.
- `ring_buffer_destroy` only clears with free and frees the record. The queue/peek functions declared in `ring_buffer.h` are not defined in `ring_buffer.c`.
- `hash_sha256` and `sha256_get_next_chunk` are unfinished in the source and not modelled.
- `cat_wstrings` and `malloc_wstring` are not modelled. They are the wide-character twins of `cat_strings` and `malloc_string`.
- Strings.CatStrings does not model the `uint32_t` wrap of the total length: it would need more than 4 GiB of arguments.
- Strings: the `assert` NULL checks on the input pointers (string.c:95, 199, 224, 247, 268) are not modelled, because a `CString` value is never NULL.
- Strings.StrToWcs and Strings.WcsToStr fix `char` as signed and `wchar_t` as 32 bits wide. Both are platform choices the source does not pin down.
- Strings.StrtokR requires a delimiter other than NUL. With `'\0'` as the delimiter, `strchr` finds the terminator itself. The first call returns the whole rest of the string and moves the save pointer onto the terminator. The next call then reads one past the terminator. A `CString` has no terminator to find, so that case is not modelled.
- Events.Unregister refuses an event that is not live, which is the logged not-owned path of `event_unregister`. In the source, unregistering an event a second time passes a pointer to freed memory, so the behaviour is undefined there. The model does not promise what the source does in that case.
- `renderer.c`, `main.c`, the headers that only declare, and `scripts/cpp2ccomments.py` are outside the core.

## Findings

| source | as written | input that shows it | evidently intended | confidence | as-written member | corrected member |
|---|---|---|---|---|---|---|
| util/src/hash.c:39 | the finaliser's middle step is `hash ^= hash >> 1` | the one-byte message "a" hashes to 0xaf8f5f08 | Jenkins' published finaliser shifts by 11, giving 0xca2e9442 for "a" | high, proved; not executed | Hash.AsWrittenHashOfA | Hash.PublishedHashOfA |
| util/src/string.c:252-254 | after skipping a CR the next character is copied unconditionally | "\r\r" becomes "\r"; "a\r" copies its terminator and reads past it | every CR removed, as the loop's comment says | high, proved; not executed | Strings.Crlf2LfAsWrittenCounterexamples | Strings.Crlf2Lf |
| game/src/renderer_vulkan.c:221 | the name buffer is stored even when no requested name matched | layers available as ["VK_LAYER_OTHER"]: count 0 with a non-NULL pointer, and clean-up at line 234 asserts | free the unused buffer and leave the pointer NULL when the count is 0 | high, proved; not executed | Vulkan.FillInUnpairedWhenNothingMatches | Vulkan.PairedCleansUp |
| game/src/renderer_vulkan.c:62 | `module_open`'s result overwrites the stored library handle without checking for one already open, although the header says such a call fails | load with library 1 already open: the call succeeds with library 2, and library 1 is never closed | fail and keep the open library, as the header documents | medium, proved for the model; whether any caller loads twice is outside the core; not executed | Vulkan.LoadOverOpenLibraryLeaks | Vulkan.LoadLibraryChecked |
| game/src/renderer_vulkan.c:124-125 | a failed extension fill-in returns without cleaning up the layer list | the layer matches, then the extension-properties allocation fails: the layer name buffer is never freed | clean up the layer info before returning | high, proved; not executed | Vulkan.CreateInstanceLeaksLayerList | Vulkan.CreateInstance |
