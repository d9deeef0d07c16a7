# dsmarshal in Dafny

A model of the serialization core of dsmarshal. It has two headers:

- `dsbuffer.h`: DSBuffer, a byte buffer that grows in whole blocks up to a
  fixed number of blocks.
- `dspacket.h`: the byte-order helpers; DSPackBuffer, the buffer DSPack
  writes into; DSPack, which appends and overwrites; DSUnpack, a read cursor;
  the `operator<<` / `operator>>` overloads for scalars, strings, pairs,
  vectors, sets and maps; Marshallable and Voidmable records; Object2String
  and String2Object.

The modules follow those headers:

| module | file | what it holds |
|---|---|---|
| `Errors` | errors.dfy | the error kinds and the `Result` / `Outcome` types that stand for a thrown `DSError` |
| `Wire` | wire.dfy | `DS_HTONS`, `DS_HTONL`, `DS_HTONLL`; the host memory layout of an integer; the wire layout, most significant byte first |
| `Codec` | codec.dfy | the wire format as pure encoders and decoders: a `Codec` per type, generic containers, and the round-trip lemmas |
| `Buffer` | dsbuffer.dfy | `DSBuffer` as a class over an array, proved against functions on its contents (`Resized`, `Spliced`, `Erased`) |
| `Packet` | dspacket.dfy | the classes `PackBuffer`, `Pack` and `Unpack`, proved against the encoders and decoders of `Codec` |
| `Streams` | streams.dfy | the `operator<<` / `operator>>` overloads; the loops of `marshal_container` and `unmarshal_container` |
| `Marshal` | marshal.dfy | Voidmable; an example record `Sample` (a 16-bit id, a string and a byte vector); Object2String and String2Object |

Each method that writes is proved to append the value's encoding. Each method
that reads is proved to return what the decoder gives and to leave the
decoder's remainder. The encoders and decoders are then proved to round-trip.
This holds for each scalar type, for strings, pairs, vectors, sets and maps,
and for a record. Decoding a vector appends to what it already holds. Decoding
a set adds to it. Decoding a map keeps the value of a key already present.

Integers are unbounded in Dafny. The widths are written out:

- `byte`, `u16`, `u32` and `u64` are integer ranges.
- Shifts are multiplications and divisions by powers of two.
- The C casts are remainders: the element count cast to `uint32_t`, and the
  string length cast to `uint16_t` in `replace_string`.
- A signed value travels as its two's-complement bit pattern.

The source writes an integer by copying `DS_HTON*(v)` out of memory. The model
fixes the host as little-endian. `StoreSwapped*` and `LoadSwapped*` prove that
this copy lays the value down most significant byte first and reads it back.

The model follows what the code does on failure and at the end of input:

- A failed write can leave part of its output behind. push_string writes the
  length before it appends the bytes (dspacket.h:135), so the length stays when
  the bytes do not fit. marshal_container writes element by element
  (dspacket.h:405), so the elements before a failing one stay written. The
  model states those partial writes; it does not roll them back.
- String2Object never calls `finish()`, so it ignores bytes after the record.

## Model

| member | source | states |
|---|---|---|
| Wire.Htons | dspacket.h:19-22 | DS_HTONS: the two bytes of a 16-bit value trade places; HtonsInvolutive and StoreSwapped16 state its properties |
| Wire.Htonl | dspacket.h:23-26 | DS_HTONL: the low half, swapped, on top of the high half, swapped; HtonlInvolutive and StoreSwapped32 state its properties |
| Wire.Htonll | dspacket.h:27-30 | DS_HTONLL: the same one width up; HtonllInvolutive, Halves64 and StoreSwapped64 state its properties |
| Wire.HtonsInvolutive | dspacket.h:19-22 | DS_NTOHS(DS_HTONS(x)) == x for every 16-bit x |
| Wire.HtonlInvolutive | dspacket.h:23-26 | DS_NTOHL(DS_HTONL(x)) == x for every 32-bit x |
| Wire.HtonllInvolutive | dspacket.h:27-30 | DS_NTOHLL(DS_HTONLL(x)) == x for every 64-bit x |
| Wire.Halves64 | dspacket.h:27-30 | a 64-bit value given as two 32-bit halves swaps to the swapped low half on top of the swapped high half, and sits in memory as the low half's bytes then the high half's |
| Wire.StoreSwapped16 | dspacket.h:128 | copying DS_HTONS(v) out of little-endian memory gives v's two bytes, most significant first |
| Wire.StoreSwapped32 | dspacket.h:129 | the same for DS_HTONL and four bytes |
| Wire.StoreSwapped64 | dspacket.h:130 | the same for DS_HTONLL and eight bytes |
| Wire.LoadSwapped16 | dspacket.h:218 | loading two bytes from memory and applying DS_NTOHS gives their most-significant-first value |
| Wire.LoadSwapped32 | dspacket.h:219 | the same for four bytes and DS_NTOHL |
| Wire.LoadSwapped64 | dspacket.h:220 | the same for eight bytes and DS_NTOHLL |
| Wire.FromToBytes16 | dspacket.h:218 | the first two bytes of a 16-bit encoding read back as the value, whatever follows |
| Wire.FromToBytes32 | dspacket.h:219 | the same for 32 bits |
| Wire.FromToBytes64 | dspacket.h:220 | the same for 64 bits |
| Wire.ToFromBytes16 | dspacket.h:218 | every two bytes are the encoding of the value they read as: no two encodings collide |
| Wire.ToFromBytes32 | dspacket.h:219 | the same for four bytes |
| Wire.ToFromBytes64 | dspacket.h:220 | the same for eight bytes |
| Codec.DecodeU8 | dspacket.h:217 | fails, with a short read, exactly when no byte is left; otherwise the input is the byte followed by the rest |
| Codec.DecodeU16 | dspacket.h:218 | fails, with a short read, exactly when fewer than 2 bytes are left; otherwise the input is the value's encoding followed by the rest |
| Codec.DecodeU32 | dspacket.h:219 | the same with 4 bytes |
| Codec.DecodeU64 | dspacket.h:220 | the same with 8 bytes |
| Codec.U8Sound | dspacket.h:271-275 | uint8_t round-trips through << and >>, its decoder only moves forward, and every encoding takes a byte |
| Codec.U16Sound | dspacket.h:277-281 | the same for uint16_t |
| Codec.U32Sound | dspacket.h:283-287 | the same for uint32_t |
| Codec.U64Sound | dspacket.h:289-293 | the same for uint64_t |
| Codec.DecodeBool | dspacket.h:331-335 | fails exactly on empty input; otherwise any non-zero byte reads as true |
| Codec.EncodeBool | dspacket.h:265-269 | a bool is one byte, 1 for true and 0 for false; BoolSound pairs it with DecodeBool |
| Codec.BoolSound | dspacket.h:265-269 | a bool written as 1 or 0 reads back as itself |
| Codec.Bits8 | dspacket.h:295-299 | the cast (uint8_t)i is undone by the cast (int8_t); a non-negative i keeps its value |
| Codec.Bits16 | dspacket.h:301-305 | the same for 16 bits |
| Codec.Bits32 | dspacket.h:307-311 | the same for 32 bits |
| Codec.Bits64 | dspacket.h:313-317 | the same for 64 bits |
| Codec.BitsSigned | dspacket.h:361-383 | every unsigned bit pattern is the pattern of the signed value it casts to |
| Codec.DecodeI8 | dspacket.h:361-365 | fails exactly when no byte is left; otherwise the input is the bit pattern of the value read, then the rest |
| Codec.DecodeI16 | dspacket.h:367-371 | the same for int16_t |
| Codec.DecodeI32 | dspacket.h:373-377 | the same for int32_t |
| Codec.DecodeI64 | dspacket.h:379-383 | the same for int64_t |
| Codec.SignedSound | dspacket.h:295-317 | int8_t to int64_t each round-trip, only move forward and take at least a byte |
| Codec.EncodeString | dspacket.h:132-136 | refused with OversizeString exactly when longer than 0xFFFF bytes; otherwise 2 + length bytes that end in the string |
| Codec.EncodeString32 | dspacket.h:137-141 | refused exactly when longer than 0xFFFFFFFF bytes; otherwise 4 + length bytes that end in the string |
| Codec.DecodeString | dspacket.h:233-238 | succeeds exactly when a 16-bit length and that many bytes are present; then the input is length, string and rest; otherwise a short read |
| Codec.DecodeString32 | dspacket.h:239-244 | the same with a 32-bit length |
| Codec.StringSound | dspacket.h:132-141 | both string forms round-trip, only move forward and take at least their prefix |
| Codec.EncodePair | dspacket.h:432-436 | a pair is its first part's encoding followed by its second's, or the first error; PairSound pairs it with DecodePair |
| Codec.DecodePair | dspacket.h:438-453 | reads the first part, then the second from what is left; PairAdvances and PairSound state its properties |
| Codec.PairAdvances | dspacket.h:448-453 | reading a pair leaves a suffix of the input when reading each part does |
| Codec.PairSound | dspacket.h:432-453 | a pair of sound types is sound: first then second, with no framing |
| Codec.EncodeElements | dspacket.h:403-406 | the elements' encodings back to back in iteration order, or the first element's error; ElementsAppend, ElementsSnoc and ElementsPrefix state its properties |
| Codec.EncodeContainer | dspacket.h:399-407 | the count cast to uint32_t, then the elements; ContainerRoundTrip pairs it with DecodeContainer |
| Codec.DecodeElements | dspacket.h:412-418 | count elements read one after another, in order; ElementsRoundTrip and ElementsAdvance state its properties |
| Codec.DecodeContainer | dspacket.h:409-419 | a 32-bit count, then that many elements; ContainerRoundTrip states its round trip |
| Codec.ElementsAppend | dspacket.h:403-406 | the elements of two runs encode to the two encodings in order, and fail exactly when one run fails |
| Codec.ElementsSnoc | dspacket.h:403-406 | one more element adds its own encoding at the end |
| Codec.ElementsPrefix | dspacket.h:403-406 | when a run encodes, so does each element and each run before it, within the length of the whole |
| Codec.ElementsLength | dspacket.h:402-406 | with non-empty elements there are no more elements than bytes |
| Codec.ElementsRoundTrip | dspacket.h:412-418 | reading count elements off their encoding gives them back in order, followed by the rest |
| Codec.ElementsAdvance | dspacket.h:412-418 | reading elements leaves a suffix of the input |
| Codec.ContainerRoundTrip | dspacket.h:399-419 | the count and the elements read back as the elements when the count did not wrap |
| Codec.ContainerFits | dspacket.h:402 | with non-empty elements, a container whose encoding fits a pack buffer has fewer than 2^32 elements, so the uint32_t count does not wrap |
| Codec.DecodeVector | dspacket.h:462-467 | the decoded elements appended after those already in the vector; VectorRoundTrip states its round trip |
| Codec.DecodeSet | dspacket.h:476-481 | the decoded elements added to the set; SetRoundTrip states its round trip |
| Codec.InsertAll | dspacket.h:493 | std::inserter into a map, pair by pair: a key already present keeps its value; InsertAllKeeps, InsertAllFirst and InsertAllKeys state its properties |
| Codec.DecodeMap | dspacket.h:490-495 | the decoded pairs inserted into the map; MapRoundTrip states its round trip |
| Codec.VectorRoundTrip | dspacket.h:462-467 | reading a vector appends its elements, in order, after those already in it |
| Codec.SetRoundTrip | dspacket.h:476-481 | reading a set adds the encoded elements to those already in it |
| Codec.InsertAllKeeps | dspacket.h:490-495 | map insertion keeps the value of a key already in the map |
| Codec.InsertAllFirst | dspacket.h:490-495 | a new key takes the value of its first pair |
| Codec.InsertAllKeys | dspacket.h:490-495 | the keys afterwards are the old keys and the keys of the pairs |
| Codec.MapRoundTrip | dspacket.h:483-495 | a map with distinct keys read into an empty map gives back each key with its value, and no other key |
| Codec.VectorSound | dspacket.h:455-467 | a vector of a sound type is itself sound, so vectors nest |
| Buffer.BlocksFor | dsbuffer.h:217-219 | the block count for n bytes, rounded up; BlocksForIsLeast and BlocksForUnique state that it is the least that suffices |
| Buffer.BlocksForIsLeast | dsbuffer.h:217-219 | the block count for n bytes holds n bytes with less than a block to spare |
| Buffer.BlocksForUnique | dsbuffer.h:217-219 | no other block count has that property |
| Buffer.BlocksForShift | dsbuffer.h:105-110 | growing by the blocks for the missing bytes gives the blocks for the whole request |
| Buffer.BlocksForWithin | dsbuffer.h:221-222 | the block ceiling is a byte ceiling: n bytes fit in m blocks exactly when n <= m * blockSize |
| Buffer.ResizedBytes | dsbuffer.h:112-129 | resize keeps the first min(n, size) bytes and every new byte is the fill byte |
| Buffer.SplicedInside | dsbuffer.h:157-164 | replace inside the contents puts the bytes at pos, leaves every other byte, and the size becomes max(size, pos + len) |
| Buffer.SplicedPastEnd | dsbuffer.h:153-155 | replace at or past the end appends at the old end |
| Buffer.SplicedField | dsbuffer.h:147-167 | overwriting a field with one of the same width changes that field only |
| Buffer.ErasedBytes | dsbuffer.h:169-196 | erase keeps the bytes before pos and closes the bytes after the range up behind them |
| Buffer.GapClosed | dsbuffer.h:184-189 | copying the tail down over the gap, front to back, gives the contents as written, whose first size - n bytes are the intended erase |
| Buffer.EraseMiddleKeepsSize | dsbuffer.h:184-189 | erase of a middle range keeps the size where n bytes less is meant: [1, 2, 3] with pos 0 and n 1 becomes [2, 3, 3], not [2, 3] |
| Buffer.CopyPrefix | dsbuffer.h:228-232 | memcpy of the bytes in use into the new region copies them exactly |
| Buffer.DSBuffer.constructor | dsbuffer.h:75 | a new buffer is empty and holds no block |
| Buffer.DSBuffer.Capacity | dsbuffer.h:84 | the capacity lies between the size and the maximum capacity |
| Buffer.DSBuffer.MaxCapacity | dsbuffer.h:85 | blockSize * maxBlockCount; Capacity, MaxFreeSize and the growth methods are bounded by it |
| Buffer.DSBuffer.Size | dsbuffer.h:79 | the size is the length of the contents |
| Buffer.DSBuffer.Empty | dsbuffer.h:81 | empty exactly when there are no contents |
| Buffer.DSBuffer.CurFreeSize | dsbuffer.h:86 | size plus free size is the capacity |
| Buffer.DSBuffer.MaxFreeSize | dsbuffer.h:87 | size plus maximum free size is the maximum capacity |
| Buffer.DSBuffer.Free | dsbuffer.h:198-209 | gives every block back and empties the buffer |
| Buffer.DSBuffer.IncreaseCapacity | dsbuffer.h:211-238 | adds the rounded-up blocks for n bytes unless that passes the block ceiling; succeeds exactly then, and keeps the contents either way |
| Buffer.DSBuffer.Reserve | dsbuffer.h:105-110 | succeeds exactly when n is within the maximum capacity, keeps the contents, and allocates only when the capacity is short, to the blocks for n |
| Buffer.DSBuffer.GrowFor | dsbuffer.h:119-121 | the growth step of resize, append and replace: room for the requested size exactly when it is within the maximum capacity |
| Buffer.DSBuffer.Resize | dsbuffer.h:112-129 | succeeds exactly when n is within the maximum capacity; the contents become the resized contents; on failure nothing changes |
| Buffer.DSBuffer.SetFrom | dsbuffer.h:123 | memset sets exactly the bytes [from, to) to the fill byte |
| Buffer.DSBuffer.CopyIn | dsbuffer.h:164 | memcpy into the region puts the bytes at pos and leaves the others |
| Buffer.DSBuffer.Append | dsbuffer.h:131-145 | succeeds exactly when the result fits the maximum capacity; the contents become old + b; on failure nothing changes |
| Buffer.DSBuffer.Replace | dsbuffer.h:147-167 | succeeds exactly when the spliced contents fit; the contents become the spliced contents; on failure nothing changes |
| Buffer.DSBuffer.CloseGap | dsbuffer.h:187-188 | the front-to-back copy leaves the contents as written, whose prefix is the intended erase |
| Buffer.DSBuffer.Erase | dsbuffer.h:169-196 | corrected erase: always succeeds; the contents become the intended erase; blocks are freed exactly when it empties the buffer and free is set |
| Buffer.DSBuffer.Truncate | dsbuffer.h:180-183 | resize(pos) for a range reaching the end keeps the first pos bytes and the blocks |
| Buffer.DSBuffer.EraseAsWritten | dsbuffer.h:169-196 | erase as written: the middle-range branch moves the bytes down but keeps the size |
| Packet.PackBuffer.constructor | dspacket.h:49-50 | a new pack buffer is empty |
| Packet.PackBuffer.Size | dspacket.h:57-60 | the size is the length of the contents |
| Packet.PackBuffer.Data | dspacket.h:53-56 | data() read out is the contents |
| Packet.PackBuffer.Reserve | dspacket.h:62-68 | throws (CapacityExceeded) exactly past 1 GiB; the contents never change |
| Packet.PackBuffer.Resize | dspacket.h:70-76 | throws exactly past 1 GiB; otherwise the contents are resized with zero bytes |
| Packet.PackBuffer.Append | dspacket.h:78-84 | throws exactly when the result would pass 1 GiB, leaving the contents unchanged; otherwise appends |
| Packet.PackBuffer.Replace | dspacket.h:86-92 | throws exactly when the spliced contents would pass 1 GiB, leaving the contents unchanged; otherwise splices |
| Packet.Pack.Open | dspacket.h:110-115 | the offset is the old size plus off, and the buffer is zero-filled up to it; fails exactly past 1 GiB; nothing is written yet |
| Packet.Pack.Make | dspacket.h:110-112 | the pack writes through the given buffer from the given offset |
| Packet.Pack.Data | dspacket.h:118 | data() read out is what lies past the offset |
| Packet.Pack.Size | dspacket.h:119 | size() is the length of what lies past the offset |
| Packet.Pack.Push | dspacket.h:121-125 | appends the bytes exactly when they fit, and otherwise fails with CapacityExceeded, changing nothing |
| Packet.Pack.PushU8 | dspacket.h:127 | appends the byte, or fails with nothing written |
| Packet.Pack.PushU16 | dspacket.h:128 | appends the value most significant byte first, or fails with nothing written |
| Packet.Pack.PushU32 | dspacket.h:129 | the same for 32 bits |
| Packet.Pack.PushU64 | dspacket.h:130 | the same for 64 bits |
| Packet.Pack.PushString | dspacket.h:132-136 | a string longer than 0xFFFF fails with OversizeString before writing; otherwise appends its encoding when it fits, and when only the length fits it leaves the length written |
| Packet.Pack.PushCounted16 | dspacket.h:135 | the length then the bytes; when the bytes do not fit, the length stays written |
| Packet.Pack.PushString32 | dspacket.h:137-141 | the same with a 32-bit length and the limit 0xFFFFFFFF |
| Packet.Pack.PushCounted32 | dspacket.h:140 | the 32-bit length then the bytes; when the bytes do not fit, the length stays written |
| Packet.Pack.Replace | dspacket.h:146-150 | splices the bytes in at the absolute position exactly when the result fits; otherwise nothing changes |
| Packet.Pack.ReplaceU8 | dspacket.h:152 | splices the byte in at pos |
| Packet.Pack.ReplaceU16 | dspacket.h:153 | corrected: splices the full 16-bit value in at pos, most significant byte first |
| Packet.Pack.ReplaceU32 | dspacket.h:154 | corrected: the same for 32 bits |
| Packet.Pack.ReplaceU64 | dspacket.h:155 | corrected: the same for 64 bits |
| Packet.Pack.ReplaceString | dspacket.h:156 | corrected: the length cast to 16 bits, written at full width at pos, then the bytes at pos + 2; succeeds exactly when both splices fit; on failure the length field is written exactly when it fits alone, and otherwise nothing changes |
| Packet.Pack.ReplaceString32 | dspacket.h:157 | corrected: the same with the length cast to 32 bits at pos and the bytes at pos + 4 |
| Packet.ReplaceFirstByteAsWritten16 | dspacket.h:153 | replace_uint16 as written: the first byte it copies, from a uint8_t parameter; ReplaceAsWrittenLosesValue shows it is always 0 |
| Packet.ReplaceFirstByteAsWritten32 | dspacket.h:154 | the same for replace_uint32; ReplaceAsWrittenLosesValue32 shows it is always 0 |
| Packet.ReplaceFirstByteAsWritten64 | dspacket.h:155 | the same for replace_uint64; ReplaceAsWrittenLosesValue64 shows it is always 0 |
| Packet.ReplaceAsWrittenLosesValue | dspacket.h:153 | as written, replace_uint16 writes 0 as its first byte for every value, so 0x0102 lands with first byte 0 instead of 1 |
| Packet.ReplaceAsWrittenLosesValue32 | dspacket.h:154 | the same for replace_uint32 and 0x01020304 |
| Packet.ReplaceAsWrittenLosesValue64 | dspacket.h:155 | the same for replace_uint64 and 0x0102030405060708 |
| Packet.BackpatchU32 | dspacket.h:154 | with the corrected replace_uint32, backpatching a 32-bit field changes that field only |
| Packet.BackpatchString | dspacket.h:156 | replace_string over a string of the same length rewrites that string and nothing else |
| Packet.Unpack.constructor | dspacket.h:172-175 | the cursor starts at the first byte of the input |
| Packet.Unpack.Reset | dspacket.h:184-188 | the cursor restarts on the new input |
| Packet.Unpack.Remaining | dspacket.h:190-191 | what is left is size() bytes long |
| Packet.Unpack.Empty | dspacket.h:193 | empty exactly when nothing is left |
| Packet.Unpack.Finish | dspacket.h:195-199 | fails with TrailingData exactly when bytes are left |
| Packet.Unpack.PopFetchPtr | dspacket.h:201-215 | fails with a short read exactly when fewer than n bytes are left; otherwise returns where they start and moves past them unless peeking |
| Packet.Unpack.PopU8 | dspacket.h:217 | returns and consumes (unless peeking) exactly what the 8-bit decoder reads; fails exactly when it does |
| Packet.Unpack.PopU16 | dspacket.h:218 | the same for 16 bits |
| Packet.Unpack.PopU32 | dspacket.h:219 | the same for 32 bits |
| Packet.Unpack.PopU64 | dspacket.h:220 | the same for 64 bits |
| Packet.Unpack.PopStringAt | dspacket.h:222-231 | pop_string(size_t&): the position and length of the string the decoder reads; when the bytes are missing, the length stays consumed |
| Packet.Unpack.PopString | dspacket.h:233-238 | returns exactly the string the decoder reads and leaves its remainder; fails with a short read exactly when the decoder does |
| Packet.Unpack.PopString32 | dspacket.h:239-244 | the same with a 32-bit length |
| Packet.Unpack.PopStringPtr | dspacket.h:246-252 | the string's place in the input, whose bytes are the decoded string |
| Packet.Unpack.PopStringPtr32 | dspacket.h:253-259 | the same with a 32-bit length |
| Streams.PutBool | dspacket.h:265-269 | appends the bool's encoding exactly when a byte fits |
| Streams.PutI8 | dspacket.h:295-299 | appends the int8_t's encoding exactly when a byte fits |
| Streams.PutI16 | dspacket.h:301-305 | the same for int16_t |
| Streams.PutI32 | dspacket.h:307-311 | the same for int32_t |
| Streams.PutI64 | dspacket.h:313-317 | the same for int64_t |
| Streams.PutValue | dspacket.h:405 | p << x appends x's encoding exactly when it has one and it fits; otherwise its error, with nothing written |
| Streams.MarshalContainer | dspacket.h:399-407 | on success the container's encoding is appended; it succeeds whenever the encoding exists and fits; a failure keeps what was written before |
| Streams.PutElements | dspacket.h:403-406 | the loop appends the elements' encodings; it succeeds whenever they exist and fit |
| Streams.ElementFails | dspacket.h:403-406 | an element that cannot be written means the whole run could not have been |
| Streams.GetBool | dspacket.h:331-335 | returns and consumes exactly what the bool decoder reads |
| Streams.GetI8 | dspacket.h:361-365 | the same for int8_t |
| Streams.GetI16 | dspacket.h:367-371 | the same for int16_t |
| Streams.GetI32 | dspacket.h:373-377 | the same for int32_t |
| Streams.GetI64 | dspacket.h:379-383 | the same for int64_t |
| Streams.GetValue | dspacket.h:415 | up >> x returns and consumes exactly what x's decoder reads, and only moves forward |
| Streams.GetElements | dspacket.h:412-418 | the loop reads count elements exactly as the element decoder does, failing with the first element's error |
| Streams.GetVector | dspacket.h:462-467 | the count, then the elements appended after those already in the vector |
| Streams.GetSet | dspacket.h:476-481 | the count, then the elements added to the set |
| Streams.GetMap | dspacket.h:490-495 | the count, then pairs inserted unless their key is present |
| Marshal.VoidRoundTrips | dspacket.h:507-511 | Voidmable writes and reads nothing, which round-trips |
| Marshal.BytesEncodeAsThemselves | dspacket.h:455-460 | a vector of uint8_t writes each byte as itself |
| Marshal.EncodeData | dspacket.h:455-460 | the byte vector is its 32-bit count followed by the bytes |
| Marshal.EncodeSample | dspacket.h:503 | the record fails to encode, with OversizeString, exactly when its name is too long; otherwise it takes 2 + 2 + name + 4 + data bytes |
| Marshal.DecodeSample | dspacket.h:519-523 | up >> id >> name >> data into an existing object; SampleDecodeInto and SampleSound state its properties |
| Marshal.SampleDecodeInto | dspacket.h:519-523 | reading a record into an object replaces its id and name and appends to its data |
| Marshal.SampleSound | dspacket.h:499-505 | the record round-trips, only moves forward and is non-empty |
| Marshal.SampleAdvances | dspacket.h:519-523 | reading a record leaves a suffix of the input |
| Marshal.SampleWireExample | dspacket.h:513-517 | the record {1, "ab", {9, 8, 7}} encodes to 00 01 00 02 61 62 00 00 00 03 09 08 07 |
| Marshal.MarshalSample | dspacket.h:513-517 | on success appends the record's encoding; succeeds whenever it exists and fits; a too-long name fails with OversizeString |
| Marshal.MarshalHead | dspacket.h:513-517 | p << id << name: succeeds exactly when the name is at most 0xFFFF bytes and both fit; appends the id and the name's encoding; on failure OversizeString before any write or CapacityExceeded |
| Marshal.UnmarshalSample | dspacket.h:519-523 | reads exactly what the record decoder reads; the only error is a short read |
| Marshal.SampleDecodeError | dspacket.h:542-545 | the only way unmarshal fails is a short read |
| Marshal.Object2String | dspacket.h:525-532 | gives exactly the record's encoding; fails only on a name too long or a record bigger than a pack buffer |
| Marshal.String2Object | dspacket.h:534-548 | true exactly when the record decodes, and then the object is the decoded record |
| Marshal.ObjectStringRoundTrip | dspacket.h:525-548 | String2Object of Object2String's output, with any bytes after it, gives the record back; the extra bytes are left unread |

## Left out

- The allocator's NULL return (dsbuffer.h:224-226) is not modelled: allocation always succeeds. Failure comes only from the block ceiling.
- Raw pointers are indices. `data()` is read out as a sequence. A StringPtr is a start and a length in the input. Lifetime and aliasing of the caller's bytes are not modelled.
- memcpy in erase copies between overlapping ranges (dsbuffer.h:188). The model copies front to back, one byte at a time, which is what a forward copy does. The undefined behaviour of an overlapping memcpy is not modelled.
- erase falls off its end without a return (dsbuffer.h:196). EraseAsWritten has no result; the corrected Erase returns true.
- size_t arithmetic is unbounded. Sizes the code computes itself stay below the 1 GiB ceiling, far from 2^64. Sums of caller-chosen size_t arguments can wrap in the source before any ceiling check, and those wraps are not modelled; the next four lines name them.
- Packet.Pack.Open: `pb.size() + off` (dspacket.h:113) wraps for an off near SIZE_MAX, and the source then resizes to the wrapped offset, possibly shrinking the buffer. The model adds without wrapping and fails with CapacityExceeded.
- Buffer.DSBuffer.Erase: `nPos + nSize` (dsbuffer.h:180, dsbuffer.h:187-188) wraps for an nSize near SIZE_MAX other than SIZE_MAX itself, and the source then takes the middle branch and copies out of range. The model, and Buffer.DSBuffer.EraseAsWritten, truncate to pos instead.
- Buffer.DSBuffer.Replace: `nPos + nSize` (dsbuffer.h:158-161) is reached only with nPos below the size, so it wraps only for an nSize near SIZE_MAX, longer than any real byte range. The model splices without wrapping. The same holds for Packet.PackBuffer.Replace and Packet.Pack.Replace.
- Packet.Pack.ReplaceString: `nPos + 2` (dspacket.h:156) wraps for a pos near SIZE_MAX. replace_string(SIZE_MAX - 1, p, n) appends the length (the position is past the end) and then replaces at position 0, overwriting the head of the buffer. The model adds without wrapping and appends both parts. The same holds for Packet.Pack.ReplaceString32 with `nPos + 4` (dspacket.h:157).
- The host is fixed as little-endian. On a big-endian host the source writes the bytes swapped; that case is not modelled.
- DSError exceptions are the `Err` / `Fail` results. Their messages are not modelled.
- `operator const void*` and `operator!` (dspacket.h:181-182) only test a pointer for NULL. A sequence has no NULL, so they are left out.
- The overloads of `operator<<` / `operator>>` for uint8_t to uint64_t, std::string and StringPtr call one push or pop each. They are modelled by those pushes and pops (`PushU8` to `PushU64`, `PushString`, `PopU8` to `PopU64`, `PopString`, `PopStringPtr`).
- unmarshal_container2 (dspacket.h:421-430) is the same loop with `push_back`. It is `GetVector`.
- Sets and maps are sequences in iteration order. The ordering and uniqueness of std::set and std::map keys are not modelled on the write side.
- Marshallable's virtual dispatch is a `Codec` value. Sample stands for one user record.
- The json marshalling directory is not part of this model.
- Streams.PutValue: writes an element all at once or not at all. The source's nested `<<` could write part of a nested value before failing.
- Streams.MarshalContainer: on failure states only that what was there before is kept as a prefix; it does not state how many elements were written. The same holds for Streams.PutElements and Marshal.MarshalSample.
- Streams.GetElements: after a failure states nothing about the cursor except that it stays valid on the same input. The same holds for Streams.GetVector, Streams.GetSet, Streams.GetMap and Marshal.UnmarshalSample.
- Streams.GetVector: the source fills the caller's container in place, so after a short read it keeps the elements read before it. The model returns `Err` and drops them. The same holds for Streams.GetSet and Streams.GetMap.
- Marshal.String2Object: after a failure the object is not specified. The source's object keeps whatever fields were read before the short read.
- Codec.ContainerRoundTrip: holds for containers of fewer than 2^32 elements. Codec.ContainerFits shows that every container that fits a pack buffer, with non-empty elements, is one.
- Marshal.VoidRoundTrips: a Voidmable is not non-empty, so a vector of Voidmables is outside Codec.VectorSound. Its count would be the only trace of it.

## Findings

| source | as written | input that shows it | evidently intended | confidence | as-written member | corrected member |
|---|---|---|---|---|---|---|
| dspacket.h:153 | replace_uint16 takes its value as uint8_t. The value is cut to its low byte, then swapped back into that byte, so the first byte written is always 0. The second byte is read past the variable. | replace_uint16(pos, 0x0102) writes first byte 0 instead of 1 | the full 16-bit value at pos, most significant byte first | high (not executed) | Packet.ReplaceAsWrittenLosesValue | Packet.Pack.ReplaceU16 |
| dspacket.h:154 | replace_uint32 has the same uint8_t parameter | replace_uint32(pos, 0x01020304) writes first byte 0 instead of 1 | the full 32-bit value at pos | high (not executed) | Packet.ReplaceAsWrittenLosesValue32 | Packet.Pack.ReplaceU32 |
| dspacket.h:155 | replace_uint64 has the same uint8_t parameter | replace_uint64(pos, 0x0102030405060708) writes first byte 0 instead of 1 | the full 64-bit value at pos | high (not executed) | Packet.ReplaceAsWrittenLosesValue64 | Packet.Pack.ReplaceU64 |
| dspacket.h:156 | replace_string writes its length through replace_uint16, so the length prefix is lost in the same way | replace_string of a 258-byte string writes first byte 0 where its length 0x0102 begins with 1 | the 16-bit length at pos, then the bytes | high (not executed) | Packet.ReplaceAsWrittenLosesValue | Packet.Pack.ReplaceString |
| dsbuffer.h:184-189 | erase of a middle range copies the tail down but never reduces the size | erase(0, 1) on [1, 2, 3] leaves [2, 3, 3] | the size drops by n: [2, 3] | high (not executed) | Buffer.EraseMiddleKeepsSize | Buffer.DSBuffer.Erase |
