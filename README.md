# gb_string in Dafny

A model of gb_String from `gb_string.h`: a growable byte string kept in one heap
block. The block holds a `{len, cap}` header, then `cap` payload bytes, then one
terminator byte. Callers hold a handle that points at the payload. Any operation
that may move the block returns the handle to use from then on.

Modules:

- `LibC` (`libc.dfy`) covers the C runtime the library calls:
  - `Alloc` is the allocator behind `GB_ALLOC`. It may refuse, and then returns null.
  - `Memcpy`, a front-moving `Memmove` and `Memset`.
  - `StrChr` (strchr's membership test) and `IsCString` (a byte sequence with no zero byte).
  - Bytes are a `byte` newtype over 0..255.
- `TrimSpec` (`trim_spec.dfy`) states what trimming computes on byte sequences:
  - the lengths of the cut runs at the front and at the back;
  - the trimmed payload;
  - a reference characterisation of the result;
  - idempotence.
- `GbString` (`gb_string.dfy`) holds the string itself. The class `GbStr` has:
  - fields `len`, `cap` and `data`, an array of `cap + 1` bytes;
  - a ghost flag `released` for a block that has been handed to `GB_FREE`.

  Its invariant `Valid()` is `len <= cap`, `data[len] == 0` and `data.Length == cap + 1` on a block that has not been released.
  - Growing allocates a fresh block, copies the payload and terminator, and releases the old block.
  - The new block's handle is a fresh `GbStr`.
  - When the allocator refuses, the result is null and the old string is untouched.
- `Examples` (`examples.dfy`) contains:
  - the library's own usage example, as four independent steps that each start from freshly made strings;
  - the equality laws;
  - append chains and reservation;
  - appending a string to itself.

## Model

| member | source | states |
|---|---|---|
| GbString.Realloc | gb_string.h:396-416 | A null block is a plain allocation. A size that does not grow keeps the same block. A larger size gives a fresh block of that size whose first `oldSize` bytes are the old ones, or null. The free of the old block at gb_string.h:413 is recorded by the caller, `MakeSpaceFor` (see Left out). |
| GbString.GbStr.Wrap | gb_string.h:300-303 | The header of a fresh block: the handle's payload block is the given one, `len` and `cap` are the given values, and the block is not released. `MakeSpaceFor` uses it for the capacity write at gb_string.h:437. |
| GbString.GbStr.MakeLength | gb_string.h:290-309 | On success: a fresh valid string with `cap == n`. Its payload is the first `n` bytes of `init`, or `n` zero bytes when `init` is null. |
| GbString.GbStr.Make | gb_string.h:311-315 | On success: a fresh valid string whose payload is the C string (empty for null), with `cap == len`. |
| GbString.GbStr.Free | gb_string.h:317-323 | A null handle is ignored. Otherwise the handle must not already be released, since freeing it again would free the same block twice; the block is then released and its header is not touched. |
| GbString.GbStr.Duplicate | gb_string.h:325-328 | On success: a fresh, independent valid string with the same payload and `cap == len`. |
| GbString.GbStr.Length | gb_string.h:330-333 | The header's `len` is the payload length. |
| GbString.GbStr.Capacity | gb_string.h:335-338 | The capacity is the block size minus the terminator, and is at least the payload length. |
| GbString.GbStr.AvailableSpace | gb_string.h:340-346 | 0 when `cap <= len`. On a valid string, payload plus free space plus terminator fill the block exactly. |
| GbString.GbStr.AllocationSize | gb_string.h:442-446 | Header plus capacity, which is one byte less than header plus block: the terminator is not counted. |
| GbString.GbStr.Clear | gb_string.h:348-352 | The payload becomes empty and the string stays valid. Block and capacity are the same, and every byte after the first is left as it was. |
| GbString.GbStr.MakeSpaceFor | gb_string.h:418-440 | When `add` bytes are free, the same handle comes back unchanged. Otherwise the result is one of two things. (1) A fresh valid string with the same payload, `cap == len + add`, the first `len + 1` bytes copied, and the old block released. (2) Null, with the string unchanged and not released. |
| GbString.GbStr.AppendLength | gb_string.h:354-367 | On success the payload is the old payload followed by `other`. The block is kept exactly when `other` fits in the free space. Otherwise the new capacity is exactly the new length. Null leaves the string unchanged. |
| GbString.GbStr.AppendString | gb_string.h:369-372 | The same as AppendLength with `other`'s payload as it was before the call, including when `other` is this string. |
| GbString.GbStr.AppendStringAsWritten | gb_string.h:354-372 | The copy reads the freed block exactly when `other` is this string and had to grow. Otherwise the payload is the concatenation. |
| GbString.GbStr.AppendCString | gb_string.h:374-377 | Appending a C string appends all bytes before its terminator, with AppendLength's capacity and failure rules. |
| GbString.GbStr.Set | gb_string.h:379-394 | On success the payload is `c` and `cap == max(old cap, strlen(c))`, so capacity never shrinks. The block moves exactly when `old cap < strlen(c)`. Null leaves the string unchanged. |
| GbString.GbStr.AreEqual | gb_string.h:448-462 | True exactly when the two payloads are equal: same length and every byte equal. |
| GbString.GbStr.TrimCursors | gb_string.h:470-479 | The bytes from the start cursor to the end cursor, both included, are the trimmed payload (`TrimSpec.Trimmed`). They lie within the payload. |
| GbString.GbStr.Trim | gb_string.h:464-488 | The payload becomes the trimmed payload. The same block and capacity are kept and the string stays valid. |
| LibC.StrChr | gb_string.h:474-477 | A byte is found exactly when it occurs in the bytes strchr scans: the cut set followed by its zero terminator. So the zero byte always counts as cut. |
| TrimSpec.CutPrefixLen | gb_string.h:474-475 | How far the front cursor walks: never past the end of the payload. |
| TrimSpec.CutSuffixLen | gb_string.h:476-477 | The length of the cut run at the back of the payload, at most the payload length. When some byte is not cut, the end cursor walks back exactly this far (`CursorsDelimitTrimmed`); otherwise it does not move. |
| TrimSpec.Trimmed | gb_string.h:474-479 | The trimmed payload is a slice of the payload that starts right after the front cut run and ends within the payload. |
| TrimSpec.CutPrefixLenSpec | gb_string.h:474-475 | The front cursor's run is all cut bytes, and the byte after it, if any, is not cut. A zero byte counts as cut. |
| TrimSpec.CutSuffixLenSpec | gb_string.h:476-477 | The back cut run is all cut bytes, and the byte before it, if any, is not cut. |
| TrimSpec.PrefixBeforeSuffix | gb_string.h:474-477 | When some byte is not cut, the two runs do not overlap. |
| TrimSpec.PrefixLenUnique | gb_string.h:474-475 | Any all-cut front run followed by an uncut byte or the end is the one measured. |
| TrimSpec.SuffixLenUnique | gb_string.h:476-477 | Any all-cut back run preceded by an uncut byte or the start is the one measured. |
| TrimSpec.TrimmedSlice | gb_string.h:479 | When some byte is not cut, the result is the slice strictly between the two runs. |
| TrimSpec.TrimmedEmpty | gb_string.h:479 | The result is empty exactly when every byte is cut, including the empty payload. |
| TrimSpec.TrimmedEnds | gb_string.h:474-479 | A non-empty result starts and ends with a byte that is not cut. |
| TrimSpec.TrimmedDropsCutSuffix | gb_string.h:476-479 | Everything dropped behind the result is cut. |
| TrimSpec.TrimmedSpec | gb_string.h:464-488 | Trimming never grows the payload, drops only cut bytes at the back, is empty exactly on all-cut input, and has uncut ends. |
| TrimSpec.CursorsDelimitTrimmed | gb_string.h:470-479 | Cursors stopped as the two loops stop them delimit exactly the trimmed payload. |
| TrimSpec.TrimmedCharacterization | gb_string.h:464-488 | For any cut prefix `p`, any middle `m` that is empty or has uncut ends, and any cut suffix `q`, trimming `p + m + q` gives `m`. |
| TrimSpec.TrimIdempotent | gb_string.h:464-488 | Trimming twice gives what trimming once gives. |
| Examples.TrimExample | gb_string.h:141-143 | "Ab.;!...AHello World       ??" trimmed by "Ab.;!. ?" is "Hello World". |
| Examples.GreetingTest | gb_string.h:122-129 | "Hello" then ", " then "world!" gives "Hello, world!", whose length is 13. |
| Examples.SetTest | gb_string.h:131-132 | Setting "Potato soup" over "Hello, world!" keeps the block and gives "Potato soup". |
| Examples.EqualityTest | gb_string.h:134-139 | After setting "Hello" and "Pizza", the two strings compare unequal. |
| Examples.TrimTest | gb_string.h:141-143 | Setting the long string and trimming it gives "Hello World". |
| Examples.EqualityLaws | gb_string.h:448-462 | Equality is reflexive and symmetric. |
| Examples.DuplicateIsEqual | gb_string.h:325-328 | A successful duplicate compares equal to its original. |
| Examples.AppendChain | gb_string.h:354-367 | Making `a` and appending `b` then `c` gives `a + b + c`, with capacity exactly its length. |
| Examples.ReserveThenAppend | gb_string.h:418-440 | After a successful make_space_for of `|b|` bytes, appending `b` keeps that handle. |
| Examples.SelfAppendAsWritten | gb_string.h:369-372 | Appending the full one-byte string "a" to itself reads the freed block. |
| Examples.SelfAppend | gb_string.h:369-372 | With the payload read first, the same call gives "aa". |

## Left out

- The C++ `gb` namespace wrappers (gb_string.h:494-587). They only forward to the C functions.
- `GB_ALLOC`/`GB_FREE`: allocation is `LibC.Alloc`, which may refuse. Freeing sets the ghost `released` flag, and the memory is not reclaimed.
- The header's byte layout and the pointer arithmetic of `GB_STRING_HEADER`:
  - The header is the `len` and `cap` fields.
  - `HeaderSize` is 16, two 8-byte `size_t` on an LP64 target. It appears only in `AllocationSize`.
- `size_t` arithmetic is unbounded here, so `len + add_len` and the block sizes never wrap around.
- GbString.GbStr.MakeLength does not model the `memset` that runs before the null check (gb_string.h:294-298). On a refused allocation with a null `init`, the C code writes through a null pointer. The model returns null without that write.
- `strlen` scanning is not modelled. C strings are byte sequences with no zero byte, and their length is `strlen`.
- The bytes past `len + 1` in a grown block are left unspecified, as C leaves them uninitialised. The model's fresh arrays start zeroed, but no contract relies on that.
- `LibC.Memmove` moves bytes only towards the front of the block. That is the only direction `gb_trim_string` uses.
- Trim on an empty payload: the C end pointer `str + len - 1` points one byte before the payload. The model's end cursor is the integer `-1`, so nothing is read through it.
- GbString.GbStr.AppendStringAsWritten: its contract says nothing about the payload after a read from a freed block. In C that read is undefined.
- GbString.Realloc: it does not itself free the old block (gb_string.h:413), because the released flag belongs to the handle rather than to the array. `MakeSpaceFor`, its only caller, sets `released` on the old handle right after a successful `Realloc`, and its contract states that release.
- GbString.GbStr.Free: the block's bytes remain readable in the model. Only the `released` flag records that the handle is dead.
- GbString.GbStr.AppendLength, GbString.GbStr.AppendCString, GbString.GbStr.Set: their bytes argument is a value, so it cannot point into the string's own block. Two C behaviours are therefore not captured. `gb_append_string_length(s, s, gb_string_length(s))` and `gb_append_cstring(s, s)` read the freed block exactly as in the finding below. `gb_set_string(s, s + k)` copies between overlapping regions (gb_string.h:389), which C leaves undefined.

## Findings

| source | as written | input that shows it | evidently intended | confidence | as-written member | corrected member |
|---|---|---|---|---|---|---|
| gb_string.h:369-372 | `gb_append_string` passes `other` itself to `gb_append_string_length`. That function first calls `gb_string_make_space_for` (line 358), which frees the old block when it must grow, and then copies from `other` (line 362). When `other` is `str`, the copy reads freed memory. The same read happens through `gb_append_string_length(s, s, gb_string_length(s))` and `gb_append_cstring(s, s)` (gb_string.h:354-377). | `s = gb_make_string("a"); gb_append_string(s, s)`: `s` has no free space, so it grows. | Appending a string to itself doubles it ("aa"). Read the payload before growing, or re-point `other` at the new block. | not executed | GbString.GbStr.AppendStringAsWritten, Examples.SelfAppendAsWritten | GbString.GbStr.AppendString, Examples.SelfAppend |
