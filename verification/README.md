# flexy-buffer: a verified model of the growable cursor buffer

This project models the core of `flexy-buffer` in Dafny and proves properties of the model. The core has two layers:

- **`BufferReader`** is a read cursor over a byte region. It provides fixed-width reads, `readBytes`, `readString`, `moveTo` and `moveBy`. Fixed-width reads, `readString` and `readBytes` with a positive length go through one bounds check. `readBytes()` and `readBytes(0)` skip it, and `moveTo` and `moveBy` clamp the cursor into the content instead of failing.
- **`FlexyBuffer`** extends the reader with a growable backing store. The store is allocated in whole pages. It grows on demand up to a page-rounded size limit, and housekeeping shrinks it back to a floor of `minPages` pages. The buffer adds `setSize`, `growSize`, `writeBytes`, `fill`, `insertBytes`, `delete`, `reset` and `toBuffer`. It redefines `size` as the logical length, so every inherited read is bounded by the logical length, never by the capacity.

The model is functional. A buffer is an immutable record `FlexyBuffer(cfg, store, size, position)`:

- `store` is a `seq<bv8>` whose length is the capacity;
- each operation is a pure function from one state to the next;
- thrown errors become `Failure(OutOfBounds)` or `Failure(LimitExceeded)` of a `Result`, with the codes `ERR_BUFFER_OUT_OF_BOUNDS` and `EBUFFLIMIT`.

The state invariant `Flexy.Valid` says:

- `position <= size <= capacity`;
- the capacity is a whole number of pages, at least `pageSize * minPages`;
- the size stays within the limit `pageSize * ceil(maxSize / pageSize)`.

Every operation is proved to keep this invariant, except the typed writes as the code writes them: `Flexy.WriteNumberAsWrittenBreaksInvariant` shows they can leave the cursor past the size (see "## Findings").

Files:

- `wrappers.dfy`: `Option`, `Result` and `Outcome`, plus the two error kinds.
- `pages.dfy`: `Ceil(n, ps)`, which is `Math.ceil(n / ps)` for non-negative `n`, and the page arithmetic lemmas.
- `reader.dfy`: module `Reader`, the cursor of `BufferReader` over `(bytes, size, position)`.
- `flexy.dfy`: module `Flexy`. It holds the buffer, its operations, its reads (the reader's operations applied to `Cursor(store, size, position)`), and the lemmas relating the operations to reference meanings and to each other.
- `scenarios.dfy`: module `Scenarios`. It holds the examples of the repository's test suite as concrete runs whose outcomes are proved from the general lemmas.

Two behaviours of the code are worth stating on their own:

- **`insertBytes` return value.** The code computes the growth as `len - Math.min(size - position, 0)`. For every cursor inside the content that minimum is 0, so the call always grows the size by `len` and returns `len`. `Flexy.InsertBytes` states this.
- **Capacity after `setSize`.** `setSize` only reallocates upward and never gives pages back. Only housekeeping shrinks the store, and then to the floor. `Flexy.SetSizeCapacity` states the resulting capacity: the larger of the old capacity and `pageSize * ceil(n / pageSize)`.

## Model

| member | source | states |
|---|---|---|
| Reader.CheckReadable | src/buffer-reader.ts:228-234 | The check fails exactly when a read of `w` bytes would pass the readable end (`position + w > size`), with the out-of-bounds error; it never moves the cursor. |
| Reader.Width | src/buffer-reader.ts:20-195 | Every fixed-width accessor consumes 1, 2, 4 or 8 bytes, and exactly the two 8-bit ones consume 1. |
| Reader.Open | src/buffer-reader.ts:5-15 | A plain reader reads its whole region, starting at 0. |
| Reader.ReadNumber | src/buffer-reader.ts:20-195 | A fixed-width read fails exactly when fewer than `width` bytes remain before `size`. Otherwise it hands out exactly the `width` bytes at the cursor and advances the cursor by `width`. |
| Reader.ReadBytes | src/buffer-reader.ts:197-203 | With a positive length the read is bounds-checked and returns that many bytes. With no length it returns the rest up to `size` and never fails. With length 0 it returns nothing, without a check. It only ever fails with a positive length. |
| Reader.ReadString | src/buffer-reader.ts:205-215 | A negative length returns nothing and leaves the cursor alone. Otherwise the bytes are bounds-checked and consumed. |
| Reader.MoveTo | src/buffer-reader.ts:221-226 | The cursor lands at the target clamped into `[0, size]`. |
| Reader.MoveBy | src/buffer-reader.ts:217-219 | A relative move is a `moveTo` of `position + n` and keeps the cursor valid. |
| Reader.MoveToIdempotent | src/buffer-reader.ts:221-226 | Moving twice to the same target is moving once. |
| Reader.MoveByInverse | src/buffer-reader.ts:217-226 | A move that stays inside `[0, size]` is undone by the opposite move. |
| Reader.ReadNumberIsReadBytes | src/buffer-reader.ts:20-203 | A fixed-width read is `readBytes` of its width: same failure, same bytes, same cursor. |
| Reader.ReadNumberThenBack | src/buffer-reader.ts:20-35 | A successful fixed-width read only moves the cursor; stepping back by the width restores the reader exactly. |
| Reader.ReadStringIsReadBytes | src/buffer-reader.ts:197-215 | For a non-negative length, `readString` and `readBytes` agree, including a zero-length read at the end of the content. |
| Reader.ReadBytesSplit | src/buffer-reader.ts:197-203 | Reading `a` bytes and then `b` bytes succeeds exactly when reading `a + b` at once does, and yields the same bytes and cursor. |
| Flexy.Configure | src/flexy-buffer.ts:22-28 | A falsy setting (omitted or 0) takes its default: page size 4096, 10 MiB limit, 5000 ms. `minPages` is at least 1, and a given positive value is kept. |
| Flexy.New | src/flexy-buffer.ts:22-30 | A new buffer is valid and empty, with the cursor at 0, and its capacity is exactly `pageSize * minPages`. |
| Flexy.Capacity | src/flexy-buffer.ts:40-42 | On a valid buffer the capacity covers the size, is whole pages, and is at least the floor. |
| Flexy.ToBuffer | src/flexy-buffer.ts:78-80 | `toBuffer()` is exactly the first `size` bytes of the store. |
| Flexy.SetSize | src/flexy-buffer.ts:57-76 | `setSize(n)` fails with the limit error exactly when `n` needs more pages than the limit allows. Otherwise: the size becomes `n`; the cursor becomes `min(position, n)`; the old store survives as a prefix; a store that already holds `n` bytes is untouched. |
| Flexy.SetSizeCapacity | src/flexy-buffer.ts:57-76 | On a page-aligned store the new capacity is `max(old capacity, pageSize * ceil(n / pageSize))`; it grows exactly when `n` exceeds the old capacity. |
| Flexy.SetSizeValid | src/flexy-buffer.ts:57-76 | A successful `setSize` keeps the state invariant. |
| Flexy.GrowSize | src/flexy-buffer.ts:53-55 | `growSize(len)` fails exactly when `size + len` passes the limit. Otherwise it adds `len` to the size, keeps the cursor and the old store as a prefix, and keeps the invariant. |
| Flexy.EnsureSize | src/flexy-buffer.ts:277-281 | Making room for `len` bytes at the cursor fails exactly when `position + len` passes the limit. Otherwise the size becomes `max(size, position + len)`, and the cursor and old store are kept. |
| Flexy.WriteBytes | src/flexy-buffer.ts:248-255 | `writeBytes(d)` fails exactly when `position + len(d)` passes the limit. Otherwise: `d` lies at the old cursor; the bytes before it are unchanged; the size is `max(size, position + len(d))`; the cursor moves past `d`; the call returns `len(d)`. |
| Flexy.WriteBytesContent | src/flexy-buffer.ts:248-255 | The content after `writeBytes(d)` is the old content with `d` overwriting from the cursor on, and extending it if `d` runs past the end. |
| Flexy.WriteString | src/flexy-buffer.ts:257-266 | Writing a non-empty encoded string behaves like `writeBytes`; an empty string changes nothing and returns 0. |
| Flexy.WriteStringIsWriteBytes | src/flexy-buffer.ts:257-266 | On already-encoded bytes, `writeString` is exactly `writeBytes`. |
| Flexy.Fill | src/flexy-buffer.ts:90-95 | `fill(v, len)` (defaults 0 and 1) fails exactly when the run passes the limit. Otherwise the `len` bytes at the cursor all equal `v`, the bytes before are kept, the size grows as `_ensureSize(len)` does, and the cursor moves past the run. |
| Flexy.FillIsWriteBytes | src/flexy-buffer.ts:90-95 | `fill(v, len)` is `writeBytes` of `len` copies of `v`. |
| Flexy.InsertBytes | src/flexy-buffer.ts:97-105 | `insertBytes(d)` fails exactly when `size + len(d)` passes the limit. Otherwise the size grows by exactly `len(d)`, the cursor moves past `d`, the invariant holds, and the call returns `len(d)`. |
| Flexy.InsertBytesContent | src/flexy-buffer.ts:97-105 | The content after `insertBytes(d)` is `old[..position] + d + old[position..]`. |
| Flexy.InsertNothing | src/flexy-buffer.ts:97-105 | Inserting no bytes changes nothing and returns 0. |
| Flexy.Delete | src/flexy-buffer.ts:107-116 | `delete(k)` never fails and removes `min(k, size - position)` bytes: the size drops by that count, and the cursor and capacity stay. Deleting nothing, for example at the end of the content, changes nothing. |
| Flexy.DeleteContent | src/flexy-buffer.ts:107-116 | The content after `delete(k)` is `old[..position] + old[position + count..]`. |
| Flexy.DeleteUndoesInsert | src/flexy-buffer.ts:97-116 | Moving back to the insertion point and deleting `len(d)` bytes after `insertBytes(d)` restores the content, the size and the cursor, and returns `len(d)`. |
| Flexy.HouseKeep | src/flexy-buffer.ts:283-297 | Housekeeping empties the buffer, keeps its settings, and never enlarges the store. |
| Flexy.HouseKeepFloor | src/flexy-buffer.ts:283-297 | Housekeeping a valid buffer gives a valid buffer whose capacity is exactly the floor of `pageSize * minPages`. |
| Flexy.Reset | src/flexy-buffer.ts:82-88 | `reset()` zeroes size and cursor and keeps the store. `reset(true)` also shrinks the store to the floor. Both keep the invariant. |
| Flexy.ReadNumber | src/buffer-reader.ts:20-195 | A fixed-width read on the buffer fails exactly when it would pass the logical size, whatever the capacity. Otherwise it returns the bytes of the content at the cursor and only moves the cursor. |
| Flexy.ReadBytes | src/buffer-reader.ts:197-203 | `readBytes` on the buffer reads only inside the logical content. With no length it returns the rest of the content; with length 0 it returns nothing and never fails; only a positive length can fail, exactly when it passes the logical size. |
| Flexy.ReadString | src/buffer-reader.ts:205-215 | `readString` on the buffer is bounded by the logical size and consumes exactly `len` content bytes. |
| Flexy.MoveTo | src/buffer-reader.ts:221-226 | On the buffer, `moveTo` puts the cursor at the target clamped into `[0, size]` (0 for a negative target, `size` past the end), changes nothing else, and keeps the invariant. |
| Flexy.MoveBy | src/buffer-reader.ts:217-219 | On the buffer, `moveBy(n)` is `moveTo(position + n)`. |
| Flexy.EofIffNothingToRead | src/flexy-buffer.ts:49-51 | `eof` holds exactly when a one-byte read fails, and exactly when reading the rest returns nothing. |
| Flexy.WriteNumber | src/flexy-buffer.ts:118-123 | A typed write of width `w` fails exactly when `position + w` passes the limit. Otherwise it grows as `_ensureSize(w)` does, moves the cursor by `w`, and keeps the invariant. The count it returns is `w`; `writeInt8` itself returns the buffer. This is `writeInt8` on values its platform write accepts, and the intended behaviour of the other typed writes. |
| Flexy.WriteNumberIsWriteBytes | src/flexy-buffer.ts:118-123 | An intended typed write is `writeBytes` of the encoded value. |
| Flexy.WriteThenReadNumber | src/flexy-buffer.ts:118-123 | Round trip: after a typed write, stepping back by its width and reading the same accessor returns exactly the written bytes and ends where the write ended. |
| Flexy.WriteNumberAsWritten | src/flexy-buffer.ts:125-246 | As written, the number-returning typed writes move the cursor to `2 * position + w`, return `position + w`, and set the size to `max(size, position + w)`. |
| Flexy.WriteNumberAsWrittenOvershoots | src/flexy-buffer.ts:125-130 | Away from position 0, the as-written cursor lies `position` bytes past the intended one, and the return value exceeds the width. |
| Flexy.WriteNumberAsWrittenBreaksInvariant | src/flexy-buffer.ts:125-130 | Appending a typed value at a non-zero end of content leaves the cursor past the size, which breaks the invariant. |
| Scenarios.Construct | test/fly-buffer.spec.ts:5-28 | Defaults give capacity 4096, a 10 MiB limit and 5000 ms; page size 1024 gives capacity 1024; page size 1024 with 5 pages gives 5120. |
| Scenarios.GrowTwice | test/fly-buffer.spec.ts:30-36 | With 100-byte pages, growing by 90 keeps capacity 100, and growing by 90 again gives 200. |
| Scenarios.GrowThenHouseKeep | test/fly-buffer.spec.ts:38-50 | Growing to 150 bytes gives capacity 200; housekeeping brings it back to 100. |
| Scenarios.WriteFive | test/fly-buffer.spec.ts:52-56 | Writing `[1..5]` into a new buffer puts exactly those bytes at the start of the store. |
| Scenarios.InsertExample | test/fly-buffer.spec.ts:58-80 | The insert example: three insertions (inside the content, near its end, at its end) give sizes 8, 11 and 14 and the expected contents. |
| Scenarios.DeleteExample | test/fly-buffer.spec.ts:82-104 | The delete example: deleting 2 inside the content, 4 with only 2 left, and 4 at the end gives sizes 12, 10 and 10 and the expected contents. |
| Scenarios.TypedWriteAfterOneByte | src/flexy-buffer.ts:125-130 | Concrete witness of the typed-write finding. On 5-byte pages after writing one byte, `writeUInt8` as written leaves the cursor at 3 in 2 bytes of content and returns 2; the intended write leaves it at 2 and returns 1. |

## Left out

- Timers: `_startHouseKeepTimer`, `setTimeout`, `clearTimeout`, `unref` and the `houseKeepMs` setter are not modelled. Housekeeping is the explicit transition `Flexy.HouseKeep`, which can run at any time. The configured delay is only stored.
- Number encoding and decoding: the bit patterns of integers, `BigInt` and IEEE-754 floats belong to the platform's `Buffer`, which is not part of this model. Typed reads hand out the raw bytes. Typed writes take the already-encoded bytes (`enc`) as a parameter.
- Character sets: `writeString` and `readString` work on already-encoded bytes. `Buffer.byteLength` and `toString` are not part of this model.
- Unused capacity: bytes of a fresh `allocUnsafe` allocation are modelled as zeros. No contract depends on the contents of freshly allocated bytes; contracts that keep the old store as a prefix do constrain bytes past `size`, because `Buffer.copy` copies the whole old store on reallocation.
- Negative arguments: `setSize`, `growSize`, `delete`, `fill` and the length of `readBytes` take `nat`, because the code does not guard negative values. The configured page size, limit and delay are likewise non-negative; only `minPages` takes any integer, since its clamp to at least 1 is in the code.
- Flexy.HouseKeep: the contract alone does not say the store shrinks to the floor; that property needs the invariant and is stated by `Flexy.HouseKeepFloor`.
- Flexy.WriteString: the contract gives the failure condition, the invariant and the count; the written bytes follow from `Flexy.WriteStringIsWriteBytes` and `Flexy.WriteBytesContent`.
- Object identity: the `buffer` field and the `this` returned by chaining methods are not modelled. `toBuffer()` and `readBytes` return views (`subarray`) that share memory with the store, so a later write through the buffer shows through them; the model returns a copy of the bytes at the time of the call.
- Non-integer numbers: JavaScript numbers are modelled as `int` and `nat`. Fractional, `NaN` and `Infinity` arguments to `moveTo`, `moveBy`, `setSize`, `growSize`, `delete`, `fill`, `readBytes`, `readString` and the options are not modelled, since their effect depends on the platform's coercions.
- Byte coercion: `fill` stores `value & 255`, and `writeBytes` and `insertBytes` of a `number[]` go through `Buffer.from`, which truncates each element to a byte. The model takes the already-truncated bytes (`bv8`), so these coercions are not modelled.
- Range errors of typed writes: the platform's integer writes throw a range error for a value outside the accessor's range, after `_ensureSize` has already grown the size. Typed writes take already-encoded bytes, so the model's typed writes fail only with `LimitExceeded` and never leave that half-done state.
- Deliberately inconsistent configurations, such as a zero page size, cannot arise: falsy settings fall back to defaults, and negative ones are excluded by the types.

## Findings

| source | as written | input that shows it | evidently intended | confidence | as-written member | corrected member |
|---|---|---|---|---|---|---|
| src/flexy-buffer.ts:125-246 | Every number-returning typed write does `_position += actual`, where `actual` is what the platform's `Buffer.writeX(value, offset)` returns. That value is documented as `offset` plus the bytes written, so the cursor goes to `2 * position + w` and the call returns `position + w`. | Page size 5: `writeBytes([1])`, then `writeUInt8(2)`. The cursor ends at 3 in 2 bytes of content, and the call returns 2. | Advance the cursor by the width `w` and return `w`, as `writeInt8` does. | not executed | Flexy.WriteNumberAsWritten | Flexy.WriteNumber |
