# A verified model of the spidernode V8 shim's core helpers

spidernode implements the V8 embedding API on top of SpiderMonkey. This
project models three parts of that shim and proves properties of the model:

- **Property side-tables** (`v8api/internal.cpp`). `AccessorStorage` and
  `AttributeStorage` map a property id to metadata that owns a persistent
  root. Adding under an existing name disposes the old root exactly once,
  removes the entry, looks the name up again and adds the new entry. The
  tables are classes with an object invariant: initialised, every root
  live, no root shared between names. The destructors are modelled twice:
  once as written (the loop never pops its range, so it disposes the same
  root forever), and once with `popFront()` added.
- **SpiderMonkey allocation and POD helpers** (`jsutil.h`):
  - `PodZero`, `PodArrayZero`, `PodCopy` and `PodEqual` are methods over
    arrays. Each is specified against sequence functions.
  - The DEBUG out-of-memory injector `JS_OOM_POSSIBLY_FAIL` is a class
    holding a 32-bit counter.
  - `js_malloc`, `new_` (`JS_NEW_BODY`), `delete_`, and the
    length-prefixed `array_new` / `array_delete` pair act on a heap that
    records its live blocks, length headers and constructor, destructor and
    free calls.
  - The DEBUG guard-object notifier and receiver are two classes linked by
    a reference.
- **String writers** (`v8api/string.cpp`). `WriteUtf8`, `WriteAscii` and
  `Write` fill caller buffers, and the `AsciiValue` / `Utf8Value`
  constructors build on them. The engine's encoder and length queries are
  inputs: the bytes the encoder stores, the count it returns, and the two
  lengths of a string. What is proved is the shim's own terminator, filter
  and length arithmetic.

C's fixed-width arithmetic is written out:
- `size_t` reduction modulo 2^32 or 2^64 (`Machine.ToSize`, with the word
  size a parameter);
- `static_cast<int>` (`Machine.Int32Of`);
- the `uint64` product in `array_new`;
- the `JSUint32` OOM counter.

The files are `machine.dfy` (integers, `Option`, buffer overwrite),
`handles.dfy` (handles and persistent roots), `storage.dfy`, `pod.dfy`,
`alloc.dfy`, `guard.dfy` and `strings.dfy`.

## Model

| member | source | states |
|---|---|---|
| Machine.Int32Of | deps/mozjs/js/src/v8api/string.cpp:111 | `static_cast<int>` of an unsigned count is in `int` range, congruent to it modulo 2^32, and equal to it below 2^31 |
| Machine.ToSize | deps/mozjs/js/src/v8api/string.cpp:102 | `size_t(length)` is below 2^width, congruent to the `int` modulo 2^width, and equal to it when it is a non-negative size |
| Handles.Persistent.New | deps/mozjs/js/src/v8api/internal.cpp:38 | `Persistent::New(data)` makes a root of `data` that has not been disposed |
| Handles.Persistent.Dispose | deps/mozjs/js/src/v8api/internal.cpp:44 | `Dispose()` is counted: one more disposal of that root |
| InternalStorage.AccessorStorage.constructor | deps/mozjs/js/src/v8api/internal.cpp:9-12 | the constructor leaves an initialised, empty table satisfying the invariant |
| InternalStorage.AccessorStorage.AddAccessor | deps/mozjs/js/src/v8api/internal.cpp:26-49 | afterwards `name` maps to the given getter, setter and attribute and a fresh root of `data`; every other name keeps its entry; the table grows by one iff `name` was absent; a previous root for `name` is disposed exactly once and no other root is touched; the invariant is kept |
| InternalStorage.AccessorStorage.Get | deps/mozjs/js/src/v8api/internal.cpp:51-59 | a present name's entry holds a live root owned by the table |
| InternalStorage.AccessorStorage.All | deps/mozjs/js/src/v8api/internal.cpp:61-67 | the range holds exactly the (name, entry) pairs of the table, and reading it changes nothing |
| InternalStorage.AccessorStorage.DestroyAsWritten | deps/mozjs/js/src/v8api/internal.cpp:14-24 | the range is empty exactly when the table is, and the loop then ends with nothing disposed; on a non-empty table, after any number of rounds the range is still non-empty, one entry's root has been disposed once per round, and every other entry's root not at all |
| InternalStorage.AccessorStorage.Destroy | deps/mozjs/js/src/v8api/internal.cpp:14-24 | with `popFront()` added, the loop ends and every owned root is disposed exactly once |
| InternalStorage.AttributeStorage.constructor | deps/mozjs/js/src/v8api/internal.cpp:72-75 | the constructor leaves an initialised, empty table satisfying the invariant |
| InternalStorage.AttributeStorage.AddAttribute | deps/mozjs/js/src/v8api/internal.cpp:89-103 | afterwards `name` maps to a fresh root of `data`; every other name keeps its root; the table grows by one iff `name` was absent; a previous root is disposed exactly once and no other root is touched; the invariant is kept |
| InternalStorage.AttributeStorage.All | deps/mozjs/js/src/v8api/internal.cpp:105-111 | the range holds exactly the (name, root) pairs of the table, and reading it changes nothing |
| InternalStorage.AttributeStorage.DestroyAsWritten | deps/mozjs/js/src/v8api/internal.cpp:77-87 | on an empty table the loop ends at once; on a non-empty one the range never empties: one root is disposed once per round, and every other root is never disposed |
| InternalStorage.AttributeStorage.Destroy | deps/mozjs/js/src/v8api/internal.cpp:77-87 | with `popFront()` added, every owned root is disposed exactly once |
| InternalStorage.OwnsRemove | deps/mozjs/js/src/v8api/internal.cpp:98-99 | removing a name keeps every other root owned, and the removed root is no longer among them |
| InternalStorage.OwnsEntriesRemove | deps/mozjs/js/src/v8api/internal.cpp:44-45 | removing a name keeps every other entry's root owned, and the removed root is no longer among them |
| Pod.Memset | deps/mozjs/js/src/jsutil.h:619-648 | `memset` stores the zero value into exactly `t[i..i+nelem)` and leaves every other element unchanged |
| Pod.PodZeroOne | deps/mozjs/js/src/jsutil.h:619-624 | `PodZero(t)` zeroes exactly the element `t` points at |
| Pod.PodZero | deps/mozjs/js/src/jsutil.h:626-631 | `PodZero(t, nelem)` zeroes exactly `t[0..nelem)` and leaves every other element unchanged |
| Pod.PodArrayZero | deps/mozjs/js/src/jsutil.h:643-648 | every one of the `N` elements is zero |
| Pod.Memcpy | deps/mozjs/js/src/jsutil.h:662 | the non-overlapping `memcpy` leaves `dst[0..nelem)` equal to the old `src[0..nelem)` and every other element unchanged |
| Pod.PodCopy | deps/mozjs/js/src/jsutil.h:650-664 | under the no-overlap assertions, both the element loop and the `memcpy` branch leave `dst[0..nelem)` equal to the old `src[0..nelem)` and all else unchanged |
| Pod.MemcmpIsZero | deps/mozjs/js/src/jsutil.h:679 | `memcmp(...) == 0` iff the two sequences agree element by element |
| Pod.PodEqual | deps/mozjs/js/src/jsutil.h:666-680 | true iff `one[0..len)` equals `two[0..len)`, in both branches, changing nothing |
| Alloc.NextCounter | deps/mozjs/js/src/jsutil.h:223 | `OOM_counter++` on a `JSUint32` adds one, wrapping to 0 after 2^32 - 1 |
| Alloc.Fails | deps/mozjs/js/src/jsutil.h:223 | the attempt made with counter value `counter` fails when the counter has reached the limit: with a limit of 0 every attempt fails, and the first attempt fails only then |
| Alloc.CounterAfter | deps/mozjs/js/src/jsutil.h:223 | after `k` attempts the 32-bit counter holds `(counter + k) mod 2^32` |
| Alloc.CounterAfterNoWrap | deps/mozjs/js/src/jsutil.h:223 | `k` attempts without wrap-around raise the counter by `k` |
| Alloc.FailurePersists | deps/mozjs/js/src/jsutil.h:213-226 | once an allocation fails, every later one fails as long as the counter does not wrap |
| Alloc.CounterWrapEndsFailures | deps/mozjs/js/src/jsutil.h:218-223 | the 32-bit counter does wrap: with a limit of 1, the attempt at 2^32 - 1 fails and the next one succeeds |
| Alloc.OomInjector.constructor | deps/mozjs/js/src/jsutil.h:218-219 | the two globals start at the given 32-bit values |
| Alloc.OomInjector.PossiblyFail | deps/mozjs/js/src/jsutil.h:220-226 | every call increments the counter, and the allocation fails iff the counter before the increment is at least the limit |
| Alloc.ArraySizeAsWritten | deps/mozjs/js/src/jsutil.h:424-429 | as written: a size the check accepts fits in `size_t` and equals `8 + sizeof(T) * n` modulo 2^64 |
| Alloc.ArraySize | deps/mozjs/js/src/jsutil.h:424-429 | the block size is accepted iff `8 + sizeof(T) * n` fits in `size_t`, and it is then that exact size |
| Alloc.ArraySizeExactOn32 | deps/mozjs/js/src/jsutil.h:424-429 | with a 32-bit `size_t` the `uint64` check as written accepts exactly the representable sizes |
| Alloc.ArraySizeNeverRejectsOn64 | deps/mozjs/js/src/jsutil.h:424-429 | with a 64-bit `size_t` the check as written rejects no `n` at all |
| Alloc.ArraySizeWrapsOn64 | deps/mozjs/js/src/jsutil.h:424-429 | with a 64-bit `size_t`, 2^60 elements of 16 bytes pass the check as an 8-byte block, though they do not fit |
| Alloc.Heap.Malloc | deps/mozjs/js/src/jsutil.h:237-240 | `js_malloc` returns NULL when the injector fails it, and otherwise returns the allocator's block, which then becomes live with the requested size |
| Alloc.Heap.Free | deps/mozjs/js/src/jsutil.h:455 | the deallocator removes the block and its header and records the call |
| Alloc.Heap.New | deps/mozjs/js/src/jsutil.h:342-344 | `JS_NEW_BODY` returns NULL exactly when the allocator does, and otherwise constructs one object in the new block |
| Alloc.Heap.Delete | deps/mozjs/js/src/jsutil.h:441-446 | `delete_(NULL)` changes nothing; otherwise the object is destroyed, then its block freed |
| Alloc.Heap.ArrayNew | deps/mozjs/js/src/jsutil.h:420-436 | NULL iff the size is not representable or the allocation fails; otherwise the header word holds `n`, the result is 8 bytes past the block start, and `n` elements are constructed there in order |
| Alloc.Heap.ArrayDelete | deps/mozjs/js/src/jsutil.h:448-457 | `array_delete(NULL)` changes nothing; otherwise the `n` read from the header are destroyed in order and the block start is freed |
| Alloc.ArrayRoundTrip | deps/mozjs/js/src/jsutil.h:420-457 | `array_delete` after `array_new` destroys exactly the elements constructed, in order, and frees the block start; after a NULL result nothing happens |
| Alloc.ObjectRoundTrip | deps/mozjs/js/src/jsutil.h:441-446 | `delete_` after `new_` destroys and frees exactly the one object made; after a NULL result nothing happens |
| GuardObjects.Receiver.constructor | deps/mozjs/js/src/jsutil.h:574 | the receiver's flag starts false |
| GuardObjects.Receiver.Init | deps/mozjs/js/src/jsutil.h:586-593 | `Init` points the notifier at this receiver's flag |
| GuardObjects.Receiver.Destroy | deps/mozjs/js/src/jsutil.h:576-584 | the destructor's assertion holds iff the flag is set |
| GuardObjects.Notifier.constructor | deps/mozjs/js/src/jsutil.h:558 | the notifier starts with a NULL pointer |
| GuardObjects.Notifier.SetStatementDone | deps/mozjs/js/src/jsutil.h:564-566 | the notifier now points at the given receiver's flag |
| GuardObjects.Notifier.Destroy | deps/mozjs/js/src/jsutil.h:560-562 | the destructor sets the flag it points at, and writes through NULL iff no flag was set |
| GuardObjects.GuardLifetime | deps/mozjs/js/src/jsutil.h:553-594 | the receiver's assertion passes iff `Init` ran and the notifier died first; a guard used as a temporary always fires it; without `Init` a named guard's notifier writes through NULL before the assertion is reached |
| StringWriters.Utf8Written | deps/mozjs/js/src/v8api/string.cpp:99-104 | the buffer holds the encoder's bytes, then a NUL at position `count` when `count < size_t(length)`, and is otherwise unchanged |
| StringWriters.Utf8Result | deps/mozjs/js/src/v8api/string.cpp:102-111 | the result is an `int`; when the count fits in one, it is `count`, plus one iff a terminator was stored |
| StringWriters.Utf8Termination | deps/mozjs/js/src/v8api/string.cpp:99-111 | `WriteUtf8` returns `count + 1` iff it stored a terminator, which is then at `buffer[count]`, and returns `count` iff it did not; nothing past the encoded bytes changes except that terminator |
| StringWriters.WriteUtf8 | deps/mozjs/js/src/v8api/string.cpp:93-112 | the buffer and result are those of the encoder plus terminator rule; a non-null `nchars_ref` receives `Length()` whether or not the string was truncated |
| StringWriters.AsciiFilter | deps/mozjs/js/src/v8api/string.cpp:77-83 | the kept bytes are no more than the bytes read, and all at most 0x7F |
| StringWriters.AsciiFilterAppend | deps/mozjs/js/src/v8api/string.cpp:77-83 | filtering a concatenation is concatenating the filtered parts, so the loop keeps the bytes in order |
| StringWriters.AsciiFilterIdentity | deps/mozjs/js/src/v8api/string.cpp:77-83 | the filter keeps everything iff every byte is ASCII |
| StringWriters.AsciiFilterIdempotent | deps/mozjs/js/src/v8api/string.cpp:77-83 | filtering filtered output changes nothing |
| StringWriters.AsciiOutput | deps/mozjs/js/src/v8api/string.cpp:81-87 | the buffer holds the kept bytes at `[0..idx)`, a NUL at `idx` iff `idx <= length`, and is otherwise unchanged |
| StringWriters.CopyAscii | deps/mozjs/js/src/v8api/string.cpp:76-87 | the loop stores exactly the ASCII bytes of `tmp[from..to)`, in order, at `buffer[0..idx)` and returns `idx`; it stores a NUL at `buffer[idx]` iff `idx <= length` |
| StringWriters.OutputFitsExactBuffer | deps/mozjs/js/src/v8api/string.cpp:77-87 | for a buffer of exactly `length` bytes, the stores as written stay inside it iff fewer than `length` bytes are kept, since the NUL goes to `buffer[length]` when `idx == length` |
| StringWriters.AsciiFilterPrefix | deps/mozjs/js/src/v8api/string.cpp:77-83 | what the loop has kept after reading up to any `i` is a prefix of what it keeps from the whole range |
| StringWriters.BoundedKept | deps/mozjs/js/src/v8api/string.cpp:60-91 | corrected: the bytes stored by a copy bounded by `length` are all kept bytes for -1, otherwise the first `min(length, kept)` of them (none for a negative `length`) |
| StringWriters.BoundedOutput | deps/mozjs/js/src/v8api/string.cpp:60-91 | corrected: the buffer holds the stored bytes, then a NUL iff it has room (`length == -1` or fewer than `length` bytes stored), and is otherwise unchanged |
| StringWriters.BoundedFitsExactBuffer | deps/mozjs/js/src/v8api/string.cpp:60-91 | corrected: a buffer of exactly `length` bytes always holds the stored bytes and the terminator, if any |
| StringWriters.BoundedAgreesWhenRoom | deps/mozjs/js/src/v8api/string.cpp:77-87 | when fewer than `length` bytes are kept, the corrected copy stores exactly what the code as written stores |
| StringWriters.BoundedLoopExit | deps/mozjs/js/src/v8api/string.cpp:77-83 | when the bounded loop stops, because the range is exhausted or `length` bytes are stored, it has kept exactly `BoundedKept` of the range's ASCII bytes |
| StringWriters.CopyAsciiBounded | deps/mozjs/js/src/v8api/string.cpp:76-87 | corrected: the loop stops after `length` stored bytes (never for -1), stores the first ASCII bytes of `tmp[from..to)` in order, and stores a NUL only when there is room |
| StringWriters.EncodeToTmp | deps/mozjs/js/src/v8api/string.cpp:65-68 | `tmp` holds what `WriteUtf8(tmp, encodedLength)` stores, and `written` is its result |
| StringWriters.WriteAscii | deps/mozjs/js/src/v8api/string.cpp:60-91 | as written: it returns the number of ASCII bytes of `tmp[start..start+written)`, having stored them in order; a NUL follows iff that number is at most `length`, where -1 means `written`; the read must stay inside `tmp` |
| StringWriters.WriteAsciiCorrected | deps/mozjs/js/src/v8api/string.cpp:60-91 | corrected: reads `tmp[start..written)`, stores at most `length` of its ASCII bytes in order (all of them for -1), returns how many, and stores a NUL only when there is room; a `length`-byte buffer always suffices |
| StringWriters.FullEncodingReads | deps/mozjs/js/src/v8api/string.cpp:72-78 | for a complete non-empty encoding, the loop as written stays inside `tmp` iff `start == 0`, while the corrected loop always does |
| StringWriters.WriteAsciiReadsPastEnd | deps/mozjs/js/src/v8api/string.cpp:72-78 | for "abc" with `start == 1`, the loop as written reads past the end of `tmp` |
| StringWriters.WriteAsciiTerminatorOverrun | deps/mozjs/js/src/v8api/string.cpp:85-86 | "abcd" into a 4-byte buffer with `length == 4`: all 4 bytes are kept and the terminator as written falls outside the buffer |
| StringWriters.CorrectedKeepsAsciiSuffix | deps/mozjs/js/src/v8api/string.cpp:76-83 | for a complete encoding, the corrected loop keeps the ASCII bytes of the encoding from `start` on |
| StringWriters.WriteAsWritten | deps/mozjs/js/src/v8api/string.cpp:40-58 | as written, `Write` either returns 0 or reads a non-empty run of code units that starts outside the string, at `start`: past its end when `start > Length()`, so the run lies wholly outside it, or before its first unit when `start` is negative, so the run may continue into it |
| StringWriters.WriteNegativeStartReadsIntoString | deps/mozjs/js/src/v8api/string.cpp:48-57 | "abc" from -1 with `length == 2`: the code as written copies `chars[-1]` and `chars[0]` |
| StringWriters.UnitsRequested | deps/mozjs/js/src/v8api/string.cpp:51-54 | the units requested fit in `size_t` and are at most a non-negative `length`; for `0 <= start <= Length()` they are `min(length, Length() - start)`, or `Length() - start` for -1 |
| StringWriters.CopiedUnits | deps/mozjs/js/src/v8api/string.cpp:48-57 | the corrected `Write` copies no more units than the string has, all of them inside the string |
| StringWriters.CopiedUnitsMeaning | deps/mozjs/js/src/v8api/string.cpp:51-57 | the corrected `Write` copies `min(length, Length() - start)` units, all remaining ones for `length == -1`, and none when `start` is past the end |
| StringWriters.WriteDropsWholeString | deps/mozjs/js/src/v8api/string.cpp:48-49 | for "abc" from 0 with `length == -1`, the code as written returns 0, where 3 units were meant to be copied |
| StringWriters.Write | deps/mozjs/js/src/v8api/string.cpp:40-58 | with the guard corrected, it returns the number of units copied and leaves `buffer[0..r)` equal to the string's units from `start` on, all else unchanged; a NULL string gives 0 and no change |
| StringWriters.AsciiValue.constructor | deps/mozjs/js/src/v8api/string.cpp:114-131 | an empty handle or string gives NULL and 0; otherwise `mStr` is a fresh `Length() + 1` buffer filled by `WriteAscii(mStr, 0, len + 1)` as written, and `mLength` is its result |
| StringWriters.AsciiValueTerminated | deps/mozjs/js/src/v8api/string.cpp:126-130 | that buffer holds the string's ASCII bytes followed by a terminator |
| StringWriters.Utf8Value.constructor | deps/mozjs/js/src/v8api/string.cpp:137-155 | an empty handle or string gives NULL and 0; otherwise `mStr` is a fresh `Utf8Length() + 1` buffer filled by `WriteUtf8`, and `mLength` is the result minus one |
| StringWriters.Utf8ValueComplete | deps/mozjs/js/src/v8api/string.cpp:150-153 | when the encoder writes the whole encoding, `mLength == Utf8Length()` and the buffer is the encoding followed by a NUL |

## Left out

- The hash table behind `mStore` is a map. Its buckets, the `init(10)` capacity, a failing `init`, and the validity of `lookupForAdd` pointers are not modelled. The constructors always succeed.
- A table range is the set of its (name, value) pairs. Hash iteration order is not modelled, and `r.front()` is an arbitrary member of that set.
- InternalStorage.AccessorStorage.AddAccessor: requires a non-empty `data` handle. The source never checks the argument, but its assertions on replaced and destroyed roots rely on stored roots being non-empty.
- InternalStorage.AttributeStorage.AddAttribute: requires a non-empty `data` handle, for the same reason.
- InternalStorage.AccessorStorage.DestroyAsWritten: the destructor as written never terminates on a non-empty table. It is modelled as a bounded number of rounds, not as a run to the end.
- InternalStorage.AttributeStorage.DestroyAsWritten: bounded the same way.
- Persistent roots are tokens that count their disposals. Rooting, the garbage collector and what `Dispose` does in the engine are not modelled.
- Handles.Persistent.Dispose: leaves the handle non-empty, so `IsEmpty()` stays false after disposal. The implementation of `Persistent::Dispose` is not part of this model, and V8's own `Dispose` does not clear the handle. The destructors hold a reference into the table (internal.cpp:20, :83), so if `Dispose` did empty the handle, the as-written loops would fail `JS_ASSERT(!...IsEmpty())` in their second round rather than dispose the same root again.
- Element values are opaque. "All bytes zero" is a given `zero` value of the element type, and byte representations are not modelled.
- Pod.MemcmpIsZero: models only whether `memcmp` returns zero, not the sign of a non-zero result.
- The `PodCopy` no-overlap assertions are preconditions. A pointer is an array plus an offset, so pointers into different arrays never overlap.
- Memory is modelled by bookkeeping alone: live blocks, length headers, and constructor, destructor and free calls. Object contents, alignment, and constructor or destructor side effects are not modelled. Addresses are unbounded, so pointer arithmetic does not wrap.
- `malloc`'s result is a parameter: a block not currently live, or NULL.
- Only one `new_` overload is modelled: the twelve overloads share `JS_NEW_BODY`. `js_calloc`, `js_realloc` and the `OffTheBooks` / `Foreground` / `UnwantedForeground` wrappers are not modelled.
- Alloc.Heap.ArrayNew: the `JS_ASSERT(0)` on the overflow path is not a precondition, so that the NULL return stays reachable. Its check uses the corrected `Alloc.ArraySize`.
- Alloc.FailurePersists: "failure persists" is proved only while the 32-bit counter does not wrap. The wrap is stated separately by `Alloc.CounterWrapEndsFailures`.
- The "data race" on `OOM_counter` is not modelled. The injector is sequential.
- `JS_Assert`, `JS_CRASH_UNLESS`, `JS_Abort`, `JS_STATIC_ASSERT`, `JSBasicStats` (floating point) and `JSCallsite` backtraces are not modelled.
- The non-DEBUG builds, where the OOM injector and guard macros compile away, are not modelled.
- GuardObjects.GuardLifetime: stops at the first failure. When a temporary guard's receiver dies first, the notifier's later write into freed memory is not modelled.
- UTF-8 encoding itself is not modelled. `JS_EncodeStringToBuffer`, `JS_GetStringLength`, `JS_GetStringEncodingLength`, `JS_GetStringCharsZAndLength` and `val->ToString()` are inputs.
- `String::New`, `FromJSID`, `Length` and `Utf8Length` are thin engine wrappers and are not modelled. The `int` cast of `Utf8Length` is `Machine.Int32Of` where the constructors use it.
- `WriteHints` are ignored.
- `delete[] tmp` and the `AsciiValue` / `Utf8Value` destructors (`delete[] mStr`) are not modelled.
- StringWriters.EncodeToTmp: the uninitialised `new char[encodedLength]` is modelled as a zero-filled array.
- StringWriters.WriteAscii: requires the encoded length to fit in `int` (it is passed to `WriteUtf8` as one). It also requires a non-negative `start`, because a negative one reads before `tmp`.
- StringWriters.WriteAscii: requires the buffer to hold every kept byte, and also the NUL when at most `length` bytes are kept (`OutputFits`). The code as written bounds neither the copy nor the terminator by `length`, so a buffer of exactly `length` bytes overflows when all `length` bytes are kept (`StringWriters.OutputFitsExactBuffer`). The out-of-bounds store itself is not modelled.
- StringWriters.CopyAscii: requires the buffer to hold every kept byte, and the NUL when one is stored, for the same reason.
- StringWriters.WriteAsciiCorrected: requires the encoded length to fit in `int`, a non-negative `start`, and a `written` count within `tmp`. It also requires `length` bytes of buffer, or room for every kept byte and the NUL for -1 (`BoundedFits`).
- StringWriters.Write: requires a string shorter than 2^31 units, so that the `* 2` byte count cannot wrap. It also requires a buffer large enough for the units copied.
- StringWriters.WriteAsWritten: the memcpy from outside the string is an outcome. The bytes it would copy are not modelled.
- StringWriters.AsciiValue.constructor: requires `Length() + 1` to be an `int`, the encoded length to fit in `int` with the encoder storing no more than it, and the ASCII bytes kept to fit the `Length() + 1` buffer (`AsciiValueFits`). These are properties of the engine's strings and encoding, which are not modelled.
- StringWriters.AsciiValue.constructor: the uninitialised `new char[len + 1]` is modelled as a zero-filled array, so bytes past the terminator read as 0.
- StringWriters.Utf8Value.constructor: requires `Utf8Length() + 1` to be an `int`, and the encoder to store no more than `Utf8Length() + 1` bytes.
- StringWriters.Utf8Value.constructor: the uninitialised `new char[len + 1]` is modelled as a zero-filled array, so bytes the encoder does not store read as 0.
- The `length == -1` case of `WriteUtf8` is modelled as the code treats it, as `size_t(-1)`, with no special handling.

## Findings

| source | as written | input that shows it | evidently intended | confidence | as-written member | corrected member |
|---|---|---|---|---|---|---|
| deps/mozjs/js/src/v8api/internal.cpp:19-23 | the destructor's loop never calls `r.popFront()`, so on a non-empty table it never ends and disposes one root again and again; if `Dispose` empties the handle, it instead fails the assertion at internal.cpp:21 in the second round | a table with one accessor | each root disposed once, then the loop ends | high (not executed) | InternalStorage.AccessorStorage.DestroyAsWritten | InternalStorage.AccessorStorage.Destroy |
| deps/mozjs/js/src/v8api/internal.cpp:82-86 | the same loop in `~AttributeStorage` never advances: it never ends, or, if `Dispose` empties the handle, fails the assertion at internal.cpp:84 in the second round | a table with one attribute | each root disposed once, then the loop ends | high (not executed) | InternalStorage.AttributeStorage.DestroyAsWritten | InternalStorage.AttributeStorage.Destroy |
| deps/mozjs/js/src/jsutil.h:424-426 | with a 64-bit `size_t` the product is taken in `uint64`, which can wrap, and the `size_t` comparison never fails | `sizeof(T) == 16`, `n == 2^60`: an 8-byte block is accepted for 2^64 + 8 bytes | NULL when `8 + sizeof(T) * n` does not fit in `size_t` | high (not executed) | Alloc.ArraySizeWrapsOn64 | Alloc.ArraySize |
| deps/mozjs/js/src/v8api/string.cpp:48 | the guard returns 0 whenever `start <= internalLen`, and the copying path then starts reading outside the string: past its end when `start > internalLen`, before its first unit when `start` is negative (and may run into it) | "abc", `start == 0`, `length == -1` returns 0 | return 0 only when `start > internalLen`, and otherwise copy from `start` | high (not executed) | StringWriters.WriteDropsWholeString | StringWriters.Write |
| deps/mozjs/js/src/v8api/string.cpp:72 | the loop runs to `start + written`, past the `written` bytes of `tmp` when `start > 0` | "abc" (3 bytes), `start == 1`: reads `tmp[3]` | read `tmp[start..written)` | medium (not executed) | StringWriters.WriteAsciiReadsPastEnd | StringWriters.WriteAsciiCorrected |
| deps/mozjs/js/src/v8api/string.cpp:85-86 | the copy is not bounded by `length`, and the NUL is stored at `buffer[idx]` whenever `idx <= length`, which is `buffer[length]` when `idx == length` | "abcd" into a 4-byte buffer with `length == 4`: 4 bytes kept, NUL stored at `buffer[4]` | store at most `length` bytes, and the NUL only when `idx < length`, as the comment before that store describes | medium (not executed) | StringWriters.WriteAsciiTerminatorOverrun | StringWriters.WriteAsciiCorrected |
