# med core, modelled in Dafny

This project models five pieces of `med`, a C++ library for tag/length/value
message codecs. It proves properties of each piece.

- **Allocation** (`allocator.dfy`) models the fixed-buffer bump allocator:
  - `forward_aligned` and `backward_aligned` over natural-number addresses;
  - the cursors `begin`, `end`, `start` and `finish` of `base_allocator`, held in the class `Allocator`;
  - its `reset` methods and `size`;
  - the `allocate` of the forward allocator and of the backward allocator.

  A ghost list of occupied blocks states the non-overlap invariant. The backward allocator also shrinks the end of a cooperating buffer (`Buffer`).
- **Mandatory** (`mandatory.dfy`) models the `mandatory<...>` descriptor algebra.
  - The kinds of the five template arguments form the closed datatype `Param`.
  - `Classify` performs the partial-specialisation choice together with the `static_assert`s. It yields a `Descriptor` (layout, `[min, max]` counts, count delegate, setter), the failed assertions, or the empty `mandatory<void>`.
  - `Valid` is an independent characterisation of the accepted descriptors.
  - `Spell` maps each descriptor back to the template arguments that produce it.
- **OctetDecoding** (`octet_decoder.dfy`) models the octet decoder:
  - the big-endian fold `get_byte`/`get_bytes`, checked against a reference sum and its inverse `ToBytes`;
  - a cursor over the input octets;
  - the decode steps for `IE_VALUE`, `IE_LEN`, `IE_TAG`, `IE_NULL`, `IE_OCTET_STRING` and `CHECK_STATE`.
- **BerLength** (`ber_length.dfy`) models the least bit width of a signed or unsigned integer (`least_bits`).
  - Its count of base-128 groups (ITU-T X.690 section 8.1.2.4) is `least_bytes_encoded`.
  - Its count of long-form length octets (ITU-T X.690 section 8.1.3.5) is `length::bytes`.
  - `__builtin_clz` is replaced by a bit-length function.
- **Exceptions** (`exception.dfy`) models the error kinds, each with its payload:
  - `invalid_value` and `unknown_tag`, which derive from `value_exception`;
  - `missing_ie` and `extra_ie`, which derive from `ie_exception`;
  - `overflow` and `out_of_memory`, which derive directly from the base `exception`.

  It also models the 128-character `what()` buffer that `format` fills with `snprintf`, `strncpy` and a final terminator. `snprintf` is abstracted as `Render`: the untruncated text of the format string, whose length is snprintf's result.
- **Arithmetic** (`arithmetic.dfy`) holds the facts about multiplication, quotient and remainder that both the address and the octet proofs use.

## Model

| member | source | states |
|---|---|---|
| Allocation.AlignDown | med/allocator.hpp:27 | the mask `x & -align` gives an aligned address at most `x` and less than one alignment below it |
| Allocation.ForwardAligned | med/allocator.hpp:23-28 | the result is aligned, at least `p`, and less than `p + alignof(T)` |
| Allocation.ForwardAlignedIsLeast | med/allocator.hpp:23-28 | no aligned address at or above `p` lies below `forward_aligned(p)`: it is the least such multiple |
| Allocation.ForwardAlignedOfAligned | med/allocator.hpp:23-28 | an already aligned address is left unchanged |
| Allocation.BackwardAligned | med/allocator.hpp:34-39 | for `p >= sizeof(T)` the result is aligned, its object ends at or before `p`, and less than one alignment of room is left above it |
| Allocation.BackwardAlignedIsGreatest | med/allocator.hpp:34-39 | no aligned object that ends at or before `p` starts above `backward_aligned(p)`: it is the greatest such multiple |
| Allocation.BackwardAlignedAsWritten | med/allocator.hpp:34-39 | the source computation, with `p - sizeof(T)` wrapping modulo 2^64, agrees with `BackwardAligned` whenever `sizeof(T) <= p < 2^64` |
| Allocation.BackwardRoomAsWritten | med/allocator.hpp:125-126 | the room test as written, `begin <= backward_aligned(end)` with the wrapping subtraction; when `sizeof(T) <= end < 2^64` it is the corrected test |
| Allocation.BackwardRoomAsWrittenWraps | med/allocator.hpp:122-135 | with the room test as written and `end < sizeof(T)`, the test passes and the chosen address lies above `end`, outside the free space |
| Allocation.BackwardRoomAsWrittenOnNullBuffer | med/allocator.hpp:122-135 | for an allocator whose pointers are all null and an 8-byte, 8-aligned type, the room test as written passes with address `2^64 - 8` |
| Allocation.IntCast | med/allocator.hpp:99 | `int(sizeof(T))`: the low 32 bits as a two's-complement `int`, equal to the size below 2^31 |
| Allocation.ForwardRoomAsWritten | med/allocator.hpp:98-99 | the room test as written, `end - forward_aligned(begin) >= int(sizeof(T))`; for types below 2^31 bytes it holds exactly when the object fits below `end` |
| Allocation.ForwardRoomAsWrittenNarrows | med/allocator.hpp:98-99 | for a type of 2^31 bytes the narrowed size is negative, so the test as written passes with no free space |
| Allocation.Allocator.constructor | med/allocator.hpp:76-79 | all four pointers start null and nothing is allocated |
| Allocation.Allocator.Reset | med/allocator.hpp:49 | `begin = start`, `end = finish`, and the region and invariant are kept; the new state depends only on the region, so resetting twice equals resetting once |
| Allocation.Allocator.ResetTo | med/allocator.hpp:56-61 | `start = data`, `finish = data + size`, with size 0 when `data` is null; then the cursors are reset |
| Allocation.Allocator.Size | med/allocator.hpp:66 | positive exactly when `begin < end`, and then equal to `end - begin`; otherwise 0 |
| Allocation.Allocator.AllocateForward | med/allocator.hpp:95-106 | succeeds exactly when an aligned object fits in `[begin, end)`. On success the block starts at `forward_aligned(begin)`, lies in `[old begin, end)`, `begin` moves to its end, `end` is unchanged, and the blocks stay pairwise disjoint. Otherwise it fails with `out_of_memory(name, sizeof(T))` and nothing changes |
| Allocation.Allocator.AllocateBackward | med/allocator.hpp:122-135 | succeeds exactly when an aligned object fits in `[begin, end)`. On success the block starts at `backward_aligned(end)`, `end` and the buffer's end both become its start, `begin` is unchanged, and the blocks stay disjoint. Otherwise it fails with `out_of_memory(name, sizeof(T))` and nothing changes |
| Allocation.ForwardExhaustion | med/allocator.hpp:95-106 | in an arena from an aligned start sized for exactly `n` objects, the `k`-th forward allocation lands at slot `k` and succeeds exactly when `k < n` |
| Mandatory.Classify | med/mandatory.hpp:17-293 | accepted descriptors are `Valid` and spell back to exactly the given arguments; only a `void` first argument gives the empty primary template; every rejection names at least one failed assertion |
| Mandatory.ClassifyComplete | med/mandatory.hpp:29-293 | every valid descriptor is produced by some specialisation: its spelling is accepted and yields it back |
| Mandatory.MalformedSpellsNothing | med/mandatory.hpp:17-27 | arguments rejected as "MALFORMED MANDATORY" spell no valid descriptor |
| Mandatory.SingleForms | med/mandatory.hpp:29-252 | a bare field, a field with a setter (kept in the descriptor), and the tag, length and tag-length framings all give `[1, 1]`; the tag-length layout nests the tag outside the length |
| Mandatory.ArityForms | med/mandatory.hpp:55-265 | `arity<NUM>` in the plain, tagged, length and tag-length framings gives `[NUM, NUM]` when `NUM > 1`, and otherwise exactly the arity assertion failure |
| Mandatory.UpToForms | med/mandatory.hpp:112-278 | `max<MAX>` plain, with a count getter, with a counter, tagged, length-prefixed and tag-length gives `[1, MAX]` when `MAX > 1`, and otherwise exactly the max assertion failure |
| Mandatory.RangeForms | med/mandatory.hpp:68-293 | `min<MIN>, max<MAX>` gives `[MIN, MAX]` when `MIN > 1 && MAX > MIN`; this holds with a count getter or counter, tagged, tag-length, or on a tagged field. Each failed bound is reported. On an untagged plain field the form is malformed |
| Mandatory.DelegateOnlyOnMulti | med/mandatory.hpp:68-150 | a count getter or counter only comes with a plain multi-field whose count ranges over `MIN < MAX` |
| OctetDecoding.GetBytes | med/octet_decoder.hpp:122-129 | the fold from a value-initialised 0 equals the big-endian sum of the octets and lies below `256^N` |
| OctetDecoding.GetByte | med/octet_decoder.hpp:106-114 | folding `(v << 8) \| b` over the octets from a start value gives `start * 256^N` plus their big-endian sum |
| OctetDecoding.BigEndianBound | med/octet_decoder.hpp:122-129 | `N` octets read as a value below `256^N` |
| OctetDecoding.GetBytesOfToBytes | med/octet_decoder.hpp:122-129 | every value below `256^n` is read back from its `n` octets |
| OctetDecoding.ToBytesOfGetBytes | med/octet_decoder.hpp:122-129 | every octet sequence is written back from the value it is read as |
| OctetDecoding.SetTestVector | ut/set.cpp:71-74 | the octets `0x35, 0xD9` read as `0x35D9`, and back |
| OctetDecoding.DecodeBuffer.Size | med/octet_decoder.hpp:94 | the count of octets left after the cursor |
| OctetDecoding.DecodeBuffer.Advance | med/octet_decoder.hpp:74 | moves the cursor by exactly `n` and returns the `n` octets it passed |
| OctetDecoding.OctetDecoder.CheckState | med/octet_decoder.hpp:41-42 | true exactly when octets remain |
| OctetDecoding.OctetDecoder.DecodeValue | med/octet_decoder.hpp:69-88 | consumes exactly `bits / 8` octets and reads them big-endian. The value is stored exactly when the IE accepts it; otherwise it fails with `invalid_value(name, value)` |
| OctetDecoding.OctetDecoder.DecodeLength | med/octet_decoder.hpp:57-61 | behaves exactly as `IE_VALUE` on the wrapped IE |
| OctetDecoding.OctetDecoder.DecodeTag | med/octet_decoder.hpp:50-56 | consumes `bits / 8` octets and reads them big-endian, below `256^(bits/8)`. It returns that value exactly when the writable tag IE accepts it; otherwise it fails with `invalid_value(name, value)` |
| OctetDecoding.OctetDecoder.DecodeNull | med/octet_decoder.hpp:63-67 | succeeds and consumes nothing |
| OctetDecoding.OctetDecoder.DecodeOctetString | med/octet_decoder.hpp:90-103 | offers all remaining octets. On acceptance the IE holds them and the cursor moves by exactly the IE's size; on rejection it fails with `invalid_value(name, size)`, and the cursor and IE are unchanged |
| BerLength.Clz | med/asn/ber/ber_length.hpp:60-71 | the count of leading zero bits of a positive value in a `w`-bit word places the value between the matching powers of two |
| BerLength.LeastBits | med/asn/ber/ber_length.hpp:22-73 | result between 1 and the type's width (never beyond int, long or long long). Unsigned: 1 for 0, else `2^(b-1) <= x < 2^b`. Signed (clang branch): `x` fits in `b` bits of two's complement and not in `b - 1`, so 0 and -1 give 1 |
| BerLength.LeastBytesEncoded | med/asn/ber/ber_length.hpp:75-79 | the least count `n >= 1` of 7-bit groups with `7(n-1) < bits <= 7n` |
| BerLength.GroupsFit | med/asn/ber/ber_length.hpp:75-79 | the value fits in `least_bytes_encoded` 7-bit groups and, when there are several, not in one fewer |
| BerLength.Bytes | med/asn/ber/ber_length.hpp:88-89 | between 1 and `sizeof` octets, the least `n` with `8(n-1) < bits <= 8n` |
| BerLength.BytesFit | med/asn/ber/ber_length.hpp:88-89 | an unsigned value is below `256^bytes` and, with several octets, at least `256^(bytes-1)`; a signed value fits in `bytes` octets and not in one fewer |
| Exceptions.Error.IsValueError | med/exception.hpp:59-78 | `invalid_value` and `unknown_tag` are value errors; no value error is an IE error, an `overflow` or an `out_of_memory` |
| Exceptions.Error.IsIeError | med/exception.hpp:80-99 | `missing_ie` and `extra_ie` are IE errors; `overflow` and `out_of_memory` are not, since they derive directly from the base |
| Exceptions.CString | med/exception.hpp:28 | `what()` reads the buffer up to its first NUL: a NUL-free prefix of the buffer, followed by NUL when shorter |
| Exceptions.Clip | med/exception.hpp:52 | `%.64s` prints exactly the first `min(length, 64)` characters of the name |
| Exceptions.DigitsRoundTrip | med/exception.hpp:48-110 | the `%zu` and `%zX` conversions of a number read back as that number |
| Exceptions.Render | med/exception.hpp:48-110 | for every kind, the name cut to 64 characters reads back as the text between the first two quotes when it holds no quote, and the text holds no NUL when the name holds none |
| Exceptions.MessageQuotesName | med/exception.hpp:37-45 | after the cut to 127 characters, the message `what()` shows still starts with the lead text, then the name cut to 64 characters between quotes. With no quote in the shown name, it is the text between the message's first two quotes |
| Exceptions.MessageKeepsPrefix | med/exception.hpp:37-42 | the message keeps every prefix of the formatted text shorter than the buffer |
| Exceptions.Message | med/exception.hpp:42-45 | the message `what()` shows is always shorter than the 128-character buffer |
| Exceptions.FormattedIsMessage | med/exception.hpp:34-43 | after `format`, index 127 is NUL. The buffer reads as the text, then the position suffix when `bufpos` is given and `0 < res < 128`, cut to 127 characters: the suffix never runs past the buffer |
| Exceptions.Exception.Format | med/exception.hpp:34-43 | the two copy loops and the terminator write leave exactly the buffer `Formatted` describes |
| Exceptions.Exception.What | med/exception.hpp:28 | a NUL-free string shorter than the buffer |
| Exceptions.Exception.constructor | med/exception.hpp:48-110 | each kind formats its own message into a fresh buffer, and `What()` is that message |

## Left out

- Placement `new (p) T{}` and real pointers are not modelled. Addresses are natural numbers, null is 0, and constructing an object is recorded only as its block in a ghost list.
- Allocation.AlignDown: `x & -align` is written as `x - x % align`. Their agreement for power-of-two alignments is assumed, not proved over 64-bit words. `IsPowerOfTwo` states that premise.
- Allocation.ForwardAligned: does not model the wrap of `uptr + alignof(T) - 1` past 2^64, because it needs an address within one alignment of the top of the address space.
- Allocation.Allocator.AllocateForward: does not model the `int(sizeof(T))` narrowing in the room test. Its test is exact, so a type of 2^31 bytes or more fails with `out_of_memory` where the source's narrowed test can pass. The test as written is `ForwardRoomAsWritten`, which agrees with the model for every type below 2^31 bytes.
- Allocation.Allocator.AllocateBackward: states the corrected room test. It gives `out_of_memory` when `end < sizeof(T)`, where the source wraps (see Findings). The as-written test is `BackwardRoomAsWritten`.
- The backward allocator keeps a reference to its buffer; here the buffer is passed to `AllocateBackward`. `Buffer` shows only its end.
- `reset(T (&data)[SIZE])` (med/allocator.hpp:64) forwards to `reset(data, SIZE * sizeof(T))`. It is not modelled separately.
- `is_allocator` and `get_allocator_ptr` (med/allocator.hpp:141-176) are left out as type-level plumbing with no runtime behaviour.
- Mandatory: the predicates `is_field`, `is_tagged_field`, `is_setter_v`, `is_count_getter_v`, `is_counter`, `is_tag` and `is_length` come from headers that are not part of this model.
  - They are taken to be mutually exclusive kinds of `Param`.
  - A tagged field is also a field.
- Mandatory: the base classes (`field_t`, `multi_field_t`, `tag_value_t`, `length_value_t`) are represented only by the descriptor's layout and bounds.
- `mandatory<void>` instantiates the empty primary template without error; it is the verdict `NoField`.
- OctetDecoding.DecodeBuffer.Advance: requires enough octets, because the buffer's `advance` and its `overflow` failure are not part of this model. The decode steps built on it (`DecodeValue`, `DecodeLength`, `DecodeTag`) carry the same precondition.
- OctetDecoding.OctetDecoder.DecodeValue: the IE's `set_encoded` is a given predicate `accepts`. An IE whose `set_encoded` returns nothing accepts every value.
  - The IE's `value_type` is assumed wide enough for `bits / 8` octets. The wrap of `value << 8` in a narrower type is not modelled.
  - `bits_to_bytes` is `bits / 8`, because `bits % 8 == 0` is required (the source's `static_assert`).
  - A rejecting `set_encoded` is taken to leave the IE's value unchanged. The IE code is not part of this model.
- OctetDecoding.OctetDecoder.DecodeOctetString: the IE's `set_encoded(size, data)` is a predicate `accepts` over the offered octets. An accepting IE keeps all of them, so its size is the count offered.
  - A rejecting IE is taken to keep its value, so the `invalid_value` error carries its previous size. The IE code is not part of this model.
- The remaining `octet_decoder` operators are not modelled (`PUSH_SIZE`, `PUSH_STATE`, `POP_STATE`, `GET_STATE`, `ADVANCE_STATE`, `ADD_PADDING`), because they only forward to buffer operations outside this model.
- `CODEC_TRACE` tracing is not modelled, and neither is the exceptions-versus-status compile switch.
- BerLength.LeastBits: follows the clang branch. The GCC branch calls `__builtin_clz(0)` for 0 and -1, which is undefined.
  - Integer widths follow the LP64 data model: int 4 bytes, long and long long 8.
  - The `uint8_t` result type is not modelled, because no result exceeds 64.
- Exceptions.Exception.Format: `snprintf` is abstracted as `Render`, the untruncated text, whose length stands for snprintf's result. Its negative error result is not modelled.
  - `strncpy` copies the suffix and pads the rest of its span with NUL.
- The `ctx.toString()` overloads of each exception kind are not modelled; they reduce to the `bufpos` form.
- Exceptions.Clip: `%.64s` counts bytes, and `Clip` counts characters. A name is taken to have one C `char` per character, as an ASCII demangled type name has. A multi-byte name would be cut at a different point.
- `name<T>()` and the demangling in med/name.hpp are not part of this model; the name is a given string.
- Copy assignment of an exception is deleted. Here the buffer is a `const` field that is never reassigned.
- The Set/Sequence encode and decode engine that ut/set.cpp drives is not part of this model. Only its octet vector is used.

## Findings

| source | as written | input that shows it | evidently intended | confidence | as-written member | corrected member |
|---|---|---|---|---|---|---|
| med/allocator.hpp:37 | `uintptr(p) - sizeof(T)` wraps below 0 when `end < sizeof(T)`. The result is near 2^64, so `begin <= p` holds and the object is placed outside the free space | an allocator with no buffer (all pointers null, `begin == end == 0`) allocating an 8-byte, 8-aligned type: `p = 2^64 - 8` and the room test passes | fail with `out_of_memory` when fewer than `sizeof(T)` bytes lie below `end` | not executed | Allocation.BackwardRoomAsWrittenWraps | Allocation.Allocator.AllocateBackward |
