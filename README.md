# protobuf-column: columns and their iterator

This project models the column family of protobuf-column in Dafny. Each
column is an append-only, array-backed sequence of one primitive type that
serialises itself to an ordered list of byte chunks (`ByteBuffer`s) and can
be rebuilt from such a list. The variants are:

- fixed-width columns: `IntColumn`, `LongColumn`, `FloatColumn`,
  `DoubleColumn` and `ByteColumn`;
- `BooleanColumn`, which stores one byte per value;
- `BooleanCompactColumn`, which packs 64 values into each `long`;
- `StringColumn`, which keeps one concatenated byte payload and an offset
  list.

The project also models the iterator that every `ColumnarCollection` hands
out.

Layout of the model:

- `wrappers.dfy` (module `Wrappers`): the `Result` and `Outcome` types and
  the Java exceptions the code can raise, as `Failure` values.
- `bytes.dfy` (module `Bytes`):
  - Java `byte`, `int` and `long` as integer newtypes;
  - their big-endian two's-complement encodings (`ByteBuffer`'s default
    order);
  - a generic fixed-width `Codec` with `EncodeAll` and `DecodeAll`, and the
    round trips between them;
  - `Put`, the loop that writes an array into a buffer.
- `array_list.dfy` (module `Lists`): fastutil's `*ArrayList` as a class. It
  has a backing `array` and a `size`, and supports `add`, `addElements`,
  `trim`, `get` and writes through `elements()`.
- `words.dfy` and `bit_packing.dfy` (modules `Words` and `BitPacking`): the
  compact boolean layout, where value i is bit i mod 64 of word i / 64.
  - `Pack` is its reference definition and `Unpack` reads it back.
  - Lemmas cover how one append changes the packing.
  - The layout's serialisation is its words as big-endian `long`s.
- `string_layout.dfy` (module `StringLayout`): the string layout.
  - `Concat` builds the payload and `Offsets` the offset list; `Split` reads
    them back.
  - The serialisation is two chunks, with round-trip lemmas both ways.
- `column.dfy` (module `Column`): one class per column variant.
  - `Initialize` is `initialize(int)` and `InitializeFrom` is
    `initialize(Iterator)`. `AsByteBuffers`, `Get` and `Add` keep their
    Java names.
  - Each class keeps `Valid()`, tying its backing lists to its logical
    contents.
  - Every method is proved against the layout functions above.
  - This file holds the corrected behaviour of each operation in the
    Findings below.
- `as_written.dfy` (module `AsWritten`): the compact boolean column and the
  string column as their code reads, on values, with concrete inputs that
  show each finding.
- `columnar_collection.dfy` (module `ColumnarCollection`): the iterator
  `Itr` over an abstract collection.
  - The abstract collection's `size()` and `get(i)` read one `items`
    sequence, which only grows.
  - `Elements` is a for-each loop over a fresh iterator, and is proved to
    yield the elements in order.

`FloatColumn` and `DoubleColumn` are `FixedColumn` instances whose elements
are the raw IEEE 754 bit patterns. They use `Int32Codec()` and
`Int64Codec()`, because `put(float[])` and `put(double[])` write exactly
those patterns.

## Model

| member | source | states |
|---|---|---|
| Bytes.FromToBytes | java/src/main/java/edu/berkeley/amplab/columnar/Column.java:58-59 | reading back k big-endian bytes of n < 256^k gives n |
| Bytes.ToFromBytes | java/src/main/java/edu/berkeley/amplab/columnar/Column.java:51-53 | every k bytes are the big-endian encoding of the number they read as |
| Bytes.TwosComplement | java/src/main/java/edu/berkeley/amplab/columnar/Column.java:58-59 | a signed value in range has an unsigned k-byte pattern below 256^k, equal to it when non-negative |
| Bytes.FromTwosComplement | java/src/main/java/edu/berkeley/amplab/columnar/Column.java:51-53 | a k-byte pattern reads as a signed value in the k-byte range |
| Bytes.Int8CodecExact | java/src/main/java/edu/berkeley/amplab/columnar/Column.java:183-192 | a `byte` is one byte, and the byte and value determine each other both ways |
| Bytes.Int32CodecExact | java/src/main/java/edu/berkeley/amplab/columnar/Column.java:50-61 | an `int` is 4 big-endian bytes, and bytes and value determine each other both ways |
| Bytes.Int64CodecExact | java/src/main/java/edu/berkeley/amplab/columnar/Column.java:83-94 | a `long` is 8 big-endian bytes, and bytes and value determine each other both ways |
| Bytes.WordCodecLawful | java/src/main/java/edu/berkeley/amplab/columnar/Column.java:252-261 | a packed word is 8 big-endian bytes that read back as the same 64 bits |
| Bytes.EncodeAll | java/src/main/java/edu/berkeley/amplab/columnar/Column.java:58 | the buffer for n elements of width w is w * n bytes |
| Bytes.EncodeAllSnoc | java/src/main/java/edu/berkeley/amplab/columnar/Column.java:59 | writing one more element appends its encoding |
| Bytes.EncodeAllAt | java/src/main/java/edu/berkeley/amplab/columnar/Column.java:59 | element i occupies bytes w*i to w*(i+1), in insertion order |
| Bytes.Put | java/src/main/java/edu/berkeley/amplab/columnar/Column.java:59 | putting an array writes the encoding of all its elements |
| Bytes.DecodeAll | java/src/main/java/edu/berkeley/amplab/columnar/Column.java:52 | a decoded chunk holds its length / w elements; the only failure is a malformed chunk |
| Bytes.DecodeAllFails | java/src/main/java/edu/berkeley/amplab/columnar/Column.java:52 | decoding fails exactly when the chunk is not a whole number of elements |
| Bytes.DecodeFirst | java/src/main/java/edu/berkeley/amplab/columnar/Column.java:52 | restoring from no chunks is `NoSuchElementException`, in both directions |
| Bytes.DecodeEncode | java/src/main/java/edu/berkeley/amplab/columnar/Column.java:51-61 | decoding the encoding of any sequence gives it back |
| Bytes.EncodeDecode | java/src/main/java/edu/berkeley/amplab/columnar/Column.java:51-61 | a chunk that decodes is the encoding of what it decodes to |
| Lists.ArrayList.constructor | java/src/main/java/edu/berkeley/amplab/columnar/Column.java:47 | a new list is empty, with the requested capacity |
| Lists.ArrayList.FromArray | java/src/main/java/edu/berkeley/amplab/columnar/Column.java:52 | a list built from an array holds a copy of exactly its elements |
| Lists.ArrayList.Get | java/src/main/java/edu/berkeley/amplab/columnar/Column.java:64 | `get(i)` is element i of the list |
| Lists.ArrayList.Store | java/src/main/java/edu/berkeley/amplab/columnar/Column.java:272-273 | a write through `elements()` inside the list replaces exactly that element |
| Lists.ArrayList.Add | java/src/main/java/edu/berkeley/amplab/columnar/Column.java:68 | `add(x)` appends x and changes nothing else in the list; a full array is replaced by one of `Grown` capacity, and otherwise the array is kept |
| Lists.ArrayList.AddAll | java/src/main/java/edu/berkeley/amplab/columnar/Column.java:321 | `addElements(size(), xs)` appends xs in order |
| Lists.ArrayList.Trim | java/src/main/java/edu/berkeley/amplab/columnar/Column.java:57 | `trim()` leaves the list unchanged and the array exactly `size` long |
| Words.SetBitAt | java/src/main/java/edu/berkeley/amplab/columnar/Column.java:273 | OR-ing `1L << j` into w leaves bit i set exactly when w had it or i == j |
| BitPacking.WordOfBit | java/src/main/java/edu/berkeley/amplab/columnar/Column.java:264-266 | bit j of a word built from at most 64 values is value j, and clear past them |
| BitPacking.LastStart | java/src/main/java/edu/berkeley/amplab/columnar/Column.java:269 | the last word of n values starts at the last multiple of 64 below n |
| BitPacking.Pack | java/src/main/java/edu/berkeley/amplab/columnar/Column.java:268-276 | n values take ceil(n / 64) words |
| BitPacking.PackBit | java/src/main/java/edu/berkeley/amplab/columnar/Column.java:264-266 | bit j of word k is value 64k + j, and clear at or beyond the count |
| BitPacking.UnpackPack | java/src/main/java/edu/berkeley/amplab/columnar/Column.java:264-266 | reading the packing back gives the values, and every padding bit is clear |
| BitPacking.PackAppendAtBoundary | java/src/main/java/edu/berkeley/amplab/columnar/Column.java:269-270 | at a multiple of 64, appending v appends a word whose bit 0 is v and other bits clear |
| BitPacking.PackAppendInWord | java/src/main/java/edu/berkeley/amplab/columnar/Column.java:271-273 | otherwise appending v sets bit size mod 64 of word size / 64 exactly when v holds; all else is unchanged |
| BitPacking.EncodeWords | java/src/main/java/edu/berkeley/amplab/columnar/Column.java:259-260 | the words take 8 bytes each |
| BitPacking.DecodeWords | java/src/main/java/edu/berkeley/amplab/columnar/Column.java:253 | a decoded chunk is its length / 8 words |
| BitPacking.Encode | java/src/main/java/edu/berkeley/amplab/columnar/Column.java:256-262 | one chunk of 8 * ceil(n / 64) bytes |
| BitPacking.Decode | java/src/main/java/edu/berkeley/amplab/columnar/Column.java:252-254 | no chunk is `NoSuchElementException`; a success has the requested count and is exactly the chunk's packing |
| BitPacking.DecodeEncode | java/src/main/java/edu/berkeley/amplab/columnar/Column.java:252-262 | restoring the serialisation of n values with count n gives them back |
| StringLayout.Offsets | java/src/main/java/edu/berkeley/amplab/columnar/Column.java:289-293 | one offset per string plus the leading 0, ending at the payload length, all within it |
| StringLayout.Split | java/src/main/java/edu/berkeley/amplab/columnar/Column.java:312-316 | a well-formed offset list delimits one string per adjacent pair |
| StringLayout.SliceAt | java/src/main/java/edu/berkeley/amplab/columnar/Column.java:312-316 | the payload between offsets i and i + 1 is string i |
| StringLayout.OffsetsSorted | java/src/main/java/edu/berkeley/amplab/columnar/Column.java:318-321 | offsets never decrease |
| StringLayout.SplitConcat | java/src/main/java/edu/berkeley/amplab/columnar/Column.java:296-316 | a column's offsets are well formed and split its payload back into its strings |
| StringLayout.ConcatSplit | java/src/main/java/edu/berkeley/amplab/columnar/Column.java:296-299 | the strings any well-formed offset list delimits concatenate back to the payload |
| StringLayout.OffsetsSplit | java/src/main/java/edu/berkeley/amplab/columnar/Column.java:296-299 | ... and their offset list is that offset list |
| StringLayout.SplitLast | java/src/main/java/edu/berkeley/amplab/columnar/Column.java:312-316 | the last string delimited is the payload from the second-to-last offset on |
| StringLayout.SplitFront | java/src/main/java/edu/berkeley/amplab/columnar/Column.java:312-316 | dropping the last offset delimits all strings but the last |
| StringLayout.EncodeOffsets | java/src/main/java/edu/berkeley/amplab/columnar/Column.java:308 | offsets take 4 bytes each |
| StringLayout.DecodeOffsets | java/src/main/java/edu/berkeley/amplab/columnar/Column.java:298 | a decoded offsets chunk is its length / 4 offsets |
| StringLayout.Encode | java/src/main/java/edu/berkeley/amplab/columnar/Column.java:302-310 | two chunks, payload then offsets, the second 4 bytes per offset |
| StringLayout.Decode | java/src/main/java/edu/berkeley/amplab/columnar/Column.java:296-299 | fewer than two chunks is `NoSuchElementException`, both ways; a success concatenates to the payload and has the chunk's offsets |
| StringLayout.DecodeEncode | java/src/main/java/edu/berkeley/amplab/columnar/Column.java:296-310 | restoring the two chunks of a column gives back its strings |
| StringLayout.EncodeDecode | java/src/main/java/edu/berkeley/amplab/columnar/Column.java:296-310 | two chunks that restore are exactly the serialisation of what they restore to |
| Column.FixedColumn.Initialize | java/src/main/java/edu/berkeley/amplab/columnar/Column.java:46-48 | a new column is empty, with the requested capacity |
| Column.FixedColumn.InitializeFrom | java/src/main/java/edu/berkeley/amplab/columnar/Column.java:51-53 | the values become those of the first chunk; a missing or malformed chunk is reported and changes nothing |
| Column.FixedColumn.AsByteBuffers | java/src/main/java/edu/berkeley/amplab/columnar/Column.java:56-61 | trims without changing the values and returns one chunk, their encoding in insertion order |
| Column.FixedColumn.Get | java/src/main/java/edu/berkeley/amplab/columnar/Column.java:63-65 | `get(i)` is value i |
| Column.FixedColumn.Add | java/src/main/java/edu/berkeley/amplab/columnar/Column.java:67-69 | appends v; earlier values are unchanged |
| Column.FixedRoundTrip | java/src/main/java/edu/berkeley/amplab/columnar/Column.java:51-61 | restoring a column's one chunk gives back its values |
| Column.BoolByte | java/src/main/java/edu/berkeley/amplab/columnar/Column.java:232 | the stored byte is 0 or 1, and non-zero exactly for true |
| Column.AsBooleans | java/src/main/java/edu/berkeley/amplab/columnar/Column.java:228 | one boolean per stored byte |
| Column.BytesChunk | java/src/main/java/edu/berkeley/amplab/columnar/Column.java:223-224 | one chunk byte per stored byte |
| Column.ChunkBytes | java/src/main/java/edu/berkeley/amplab/columnar/Column.java:217 | one stored byte per chunk byte |
| Column.BytesRoundTrip | java/src/main/java/edu/berkeley/amplab/columnar/Column.java:217-224 | the two conversions are inverse, both ways |
| Column.StoredOfValues | java/src/main/java/edu/berkeley/amplab/columnar/Column.java:227-233 | the bytes `add` stores read back as the values added |
| Column.BooleanColumn.Initialize | java/src/main/java/edu/berkeley/amplab/columnar/Column.java:211-213 | a new column stores no bytes |
| Column.BooleanColumn.InitializeFrom | java/src/main/java/edu/berkeley/amplab/columnar/Column.java:216-218 | the stored bytes become the first chunk's; no chunk is reported and changes nothing |
| Column.BooleanColumn.AsByteBuffers | java/src/main/java/edu/berkeley/amplab/columnar/Column.java:221-225 | trims and returns one chunk holding the stored bytes |
| Column.BooleanColumn.Get | java/src/main/java/edu/berkeley/amplab/columnar/Column.java:227-229 | `get(i)` is value i |
| Column.BooleanColumn.Add | java/src/main/java/edu/berkeley/amplab/columnar/Column.java:231-233 | stores byte 1 for true and 0 for false, so the values grow by v |
| Column.BooleanCompactColumn.Initialize | java/src/main/java/edu/berkeley/amplab/columnar/Column.java:246-249 | a new column is empty, with room for initialCapacity / 64 words |
| Column.BooleanCompactColumn.Reinitialize | java/src/main/java/edu/berkeley/amplab/columnar/Column.java:246-249 | `initialize(int)` on a column in use leaves it empty, `size` included, with room for initialCapacity / 64 words |
| Column.BooleanCompactColumn.InitializeFrom | java/src/main/java/edu/berkeley/amplab/columnar/Column.java:251-254 | the values and `size` become the chunk's n values; a missing or non-canonical chunk is reported and changes nothing |
| Column.BooleanCompactColumn.AsByteBuffers | java/src/main/java/edu/berkeley/amplab/columnar/Column.java:256-262 | trims to ceil(size / 64) words and returns their serialisation |
| Column.BooleanCompactColumn.Get | java/src/main/java/edu/berkeley/amplab/columnar/Column.java:264-266 | bit i mod 64 of word i / 64 is value i |
| Column.BooleanCompactColumn.Add | java/src/main/java/edu/berkeley/amplab/columnar/Column.java:268-276 | the values grow by v, `size` by one, and the word count stays ceil(size / 64) |
| Column.BooleanCompactColumn.StartWord | java/src/main/java/edu/berkeley/amplab/columnar/Column.java:269-270 | at a multiple of 64, `add` appends a word seeded with v; the values grow by v |
| Column.BooleanCompactColumn.SetInWord | java/src/main/java/edu/berkeley/amplab/columnar/Column.java:271-273 | inside a word, `add` sets bit size mod 64 of word size / 64 when v holds, in place; the values grow by v |
| Column.StringColumn.Initialize | java/src/main/java/edu/berkeley/amplab/columnar/Column.java:288-293 | an empty payload and the offset list [0] |
| Column.StringColumn.InitializeFrom | java/src/main/java/edu/berkeley/amplab/columnar/Column.java:295-299 | the strings become those the two chunks delimit; missing or inconsistent chunks are reported and change nothing |
| Column.StringColumn.AsByteBuffers | java/src/main/java/edu/berkeley/amplab/columnar/Column.java:301-310 | trims both lists without changing the strings and returns the payload chunk, then one `int` per offset |
| Column.StringColumn.Get | java/src/main/java/edu/berkeley/amplab/columnar/Column.java:312-316 | `get(i)` is string i |
| Column.StringColumn.Add | java/src/main/java/edu/berkeley/amplab/columnar/Column.java:318-322 | appends s, keeping the offsets equal to the payload length after each string |
| AsWritten.NewCompact | java/src/main/java/edu/berkeley/amplab/columnar/Column.java:246-249 | a new column has initialCapacity / 64 zero slots, no words and size 0 |
| AsWritten.ListAdd | java/src/main/java/edu/berkeley/amplab/columnar/Column.java:270 | the word goes into the next free slot; the earlier words stay |
| AsWritten.CompactAdd | java/src/main/java/edu/berkeley/amplab/columnar/Column.java:268-276 | a successful add raises `size` by one |
| AsWritten.CompactGet | java/src/main/java/edu/berkeley/amplab/columnar/Column.java:264-266 | reading fails exactly when word index / 64 is not held |
| AsWritten.CompactRestore | java/src/main/java/edu/berkeley/amplab/columnar/Column.java:251-254 | restoring replaces the words and keeps the old `size` |
| AsWritten.CompactAddFalseSetsBit | java/src/main/java/edu/berkeley/amplab/columnar/Column.java:273 | add(true), add(false) reads back true at index 1 |
| AsWritten.CompactAddWritesLastSlot | java/src/main/java/edu/berkeley/amplab/columnar/Column.java:272-273 | with two slots, add(true) twice reads back false at index 1 |
| AsWritten.CompactRestoreLosesSize | java/src/main/java/edu/berkeley/amplab/columnar/Column.java:252-254 | restoring [true] and adding true reads back false at index 1 |
| AsWritten.CompactReinit | java/src/main/java/edu/berkeley/amplab/columnar/Column.java:246-249 | `initialize(int)` on a column in use, as written: an empty list of initialCapacity / 64 zero slots, and `size` as before |
| AsWritten.CompactReinitKeepsSize | java/src/main/java/edu/berkeley/amplab/columnar/Column.java:246-249 | five adds, `initialize(64)`, add(true): get(5) fails; with `initialize(0)` the add fails |
| AsWritten.NewStrings | java/src/main/java/edu/berkeley/amplab/columnar/Column.java:289-293 | an empty payload and the offsets [0] |
| AsWritten.StringAdd | java/src/main/java/edu/berkeley/amplab/columnar/Column.java:318-322 | the payload grows by the bytes, the offsets by one |
| AsWritten.StringGet | java/src/main/java/edu/berkeley/amplab/columnar/Column.java:312-316 | a read is as long as the gap between the two offsets |
| AsWritten.StringAddCountsCharacters | java/src/main/java/edu/berkeley/amplab/columnar/Column.java:318-321 | the one-character, two-byte string C3 A9 reads back as C3 |
| AsWritten.StringChunks | java/src/main/java/edu/berkeley/amplab/columnar/Column.java:302-310 | serialising fails exactly when there are more offsets than payload bytes; otherwise the offsets chunk is 4 bytes per payload byte |
| AsWritten.StringChunksOverflowWhenEmpty | java/src/main/java/edu/berkeley/amplab/columnar/Column.java:306-308 | an empty column overflows the offsets buffer |
| AsWritten.StringChunksPadOffsets | java/src/main/java/edu/berkeley/amplab/columnar/Column.java:306-308 | ["abc"] writes offsets that read back as [0, 3, 0], which are refused on restore |
| ColumnarCollection.Collection.Iterator | java/src/main/java/edu/berkeley/amplab/columnar/ColumnarCollection.java:62-72 | a fresh iterator has cursor 0 and lastRet -1, and has every element still to come |
| ColumnarCollection.Collection.Elements | java/src/main/java/edu/berkeley/amplab/columnar/ColumnarCollection.java:62-86 | iterating a fresh iterator yields get(0), ..., get(n-1) in order, and the iterator ends at the last element with `hasNext` false |
| ColumnarCollection.Collection.Add | java/src/main/java/edu/berkeley/amplab/columnar/ColumnarCollection.java:56 | `add` appends one element |
| ColumnarCollection.Itr.HasNext | java/src/main/java/edu/berkeley/amplab/columnar/ColumnarCollection.java:74-76 | true exactly when elements remain, i.e. cursor < size() |
| ColumnarCollection.Itr.Next | java/src/main/java/edu/berkeley/amplab/columnar/ColumnarCollection.java:78-86 | past the end, `NoSuchElementException` with nothing changed; otherwise the element at the cursor, lastRet := cursor and cursor + 1 |
| ColumnarCollection.Itr.Remove | java/src/main/java/edu/berkeley/amplab/columnar/ColumnarCollection.java:88-90 | always `UnsupportedOperationException`, changing nothing |
| ColumnarCollection.AppendSeen | java/src/main/java/edu/berkeley/amplab/columnar/ColumnarCollection.java:74-86 | an element appended during iteration stays valid to visit: what remains grows by it |

## Left out

- Floating point: `FloatColumn` and `DoubleColumn` carry raw IEEE 754 bit patterns. No float arithmetic or NaN canonicalisation is modelled.
- Character encoding: strings are their bytes. `String.getBytes()` and `new String(bytes, ...)` use the platform charset, which is not modelled. `Column.StringColumn.Add` takes the bytes directly.
- fastutil internals: the growth policy depends on the fastutil version. A full list is modelled as growing to double its capacity, or to 1 when empty. The `MAX_ARRAY_SIZE` cap is not modelled.
- NIO buffer state (position, limit, views): `asIntBuffer().array()` and its kin throw on view buffers (Column.java:52, 85, 253, 298). The model restores from the chunk's bytes, as intended.
- Out-of-range `get`: for the fixed-width, boolean and string columns, an index outside the column is a precondition. In Java, fastutil's `get` throws there.
- Column.BooleanCompactColumn.Get: requires `index < size`. Java throws nothing for `size <= index < 64 * arr.size()`: it returns a padding bit. For -63..-1 it reads word 0, because Java's `-1 / 64` is 0 and the shift count is masked. Neither case is modelled.
- Column.FixedColumn.Initialize, Column.BooleanColumn.Initialize, Column.StringColumn.Initialize, Column.BooleanCompactColumn.Initialize and Lists.ArrayList.constructor: take a `nat` capacity. A negative `initialCapacity` is not modelled. fastutil's list constructors throw `IllegalArgumentException` for one (Column.java:47, 80, 179, 212, 290-291). The compact column divides first, so -1..-63 becomes capacity 0 and succeeds (line 248).
- Restoring from a chunk that is not whole elements: Java's view buffer would drop the trailing bytes. The model reports `Malformed` and leaves the column unchanged.
- Restoring ignores chunks beyond the ones a column reads, as the Java iterator does.
- Concurrency and the `Iterable` interface are not modelled. The code is single-threaded.
- Column.BooleanCompactColumn.Add: `size` is a `nat` and never wraps. Java's `int size` wraps after 2^31 calls to `add` (Column.java:275), which needs only 2^25 words.
- Column.StringColumn.Add: requires the payload to stay below 2^31 bytes, because offsets are Java `int`s; Java would overflow silently.
- BitPacking.Decode: its contract states that the chunk decodes to exactly the packing of the result. It does not state that re-encoding gives back the same bytes. The 64-bit word codec is proved only in the encode-then-decode direction.
- Column.StringColumn.InitializeFrom: restores all or nothing. The source replaces the payload (Column.java:297) before it reads the offsets chunk (line 298). With only one chunk, it throws `NoSuchElementException` after the payload has already changed; the model leaves the whole column unchanged.
- Column.StringColumn.InitializeFrom: also refuses offsets that are not well formed, that is, not starting at 0, not ending at the payload length, or decreasing. The source installs whatever offsets it reads, and its `get` then fails or returns wrong slices. `AsWritten.StringChunksPadOffsets` shows one such chunk, and only the model refuses it.
- Column.BooleanCompactColumn.InitializeFrom: takes the value count as a parameter. The serialised form does not record it, and the source never restores it (see Findings). It also refuses a chunk whose word count is not ceil(count / 64) and words whose padding bits are set. The source accepts any whole number of words.
- ColumnarCollection.Collection: stands for any columnar collection. Its elements are one `items` sequence that only grows, so `size()` and `get(i)` are read from it. The concrete columns do not implement it here.
- The `BooleanCompactColumn` doc comment says 32 values per `long` (Column.java:237-238), but the code uses `Long.SIZE`, which is 64 (line 242). The model follows the code.
- AsWritten.StringGet: a read succeeds only when it lies within the logical payload. Java's `new String(arr.elements(), start, len)` (Column.java:314-315) is limited by the backing array's capacity instead. Until the next trim that capacity can exceed the payload, so a span past the payload returns trailing zero bytes there. No finding depends on this case.
- Column.FixedColumn.AsByteBuffers: returns its chunk for any number of values. Java computes the buffer size in `int` arithmetic, `4 * arr.size()` or `8 * arr.size()` (Column.java:58, 91, 124, 157). From 2^29 `int`s or 2^28 `long`s that product wraps to a negative number, and `ByteBuffer.allocate` throws `IllegalArgumentException`. The model does not reproduce that failure. The same holds for `8 * arr.size()` in Column.BooleanCompactColumn.AsByteBuffers (line 259), for the offsets buffer in Column.StringColumn.AsByteBuffers (line 307), and for AsWritten.StringChunks, whose Ok-exactly-when clause holds only while `4 * |payload|` stays below 2^31.
- Column.BooleanCompactColumn.Initialize, Column.FixedColumn.Initialize, Column.BooleanColumn.Initialize and Column.StringColumn.Initialize: these constructors model `initialize(int)` on a new object only. Called again on a column in use, Java's fixed, boolean and string columns replace their lists and are empty again. The compact column replaces its words but keeps `size` (Column.java:247-249). AsWritten.CompactReinit models that as written, and Column.BooleanCompactColumn.Reinitialize is the corrected method (see Findings).
- `AsWritten.CompactAdd` models an out-of-range write on an empty backing array as `IndexOutOfBounds`. It models no other exception of the as-written code.

## Findings

| source | as written | input that shows it | evidently intended | confidence | as-written member | corrected member |
|---|---|---|---|---|---|---|
| java/src/main/java/edu/berkeley/amplab/columnar/Column.java:273 | `add(v)` inside a word ORs bit `size` in whatever v is | `initialize(64)`, `add(true)`, `add(false)`: `get(1)` is true | set the bit only when v is true | high, not executed | AsWritten.CompactAddFalseSetsBit | Column.BooleanCompactColumn.Add |
| java/src/main/java/edu/berkeley/amplab/columnar/Column.java:272-273 | the bit goes into the backing array's last slot, `elements[elements.length - 1]` | `initialize(128)`, `add(true)` twice: `get(1)` is false | the word holding value `size`, index `size / 64` | high, not executed | AsWritten.CompactAddWritesLastSlot | Column.BooleanCompactColumn.Add |
| java/src/main/java/edu/berkeley/amplab/columnar/Column.java:252-254 | `initialize(Iterator)` restores the words but not `size` | restore the words of [true] into a new column, `add(true)`: `get(1)` is false | `size` set to the number of values restored | high, not executed | AsWritten.CompactRestoreLosesSize | Column.BooleanCompactColumn.InitializeFrom |
| java/src/main/java/edu/berkeley/amplab/columnar/Column.java:247-249 | `initialize(int)` on a column in use replaces the words but not `size` | `initialize(64)`, `add(true)` five times, `initialize(64)`, `add(true)`: `get(5)` throws `IndexOutOfBoundsException` | `size` reset to 0 with the words | high, not executed | AsWritten.CompactReinitKeepsSize | Column.BooleanCompactColumn.Reinitialize |
| java/src/main/java/edu/berkeley/amplab/columnar/Column.java:318-321 | the new offset adds `s.length()` characters, while the payload grows by `s.getBytes()` bytes | `add("é")` under UTF-8 (bytes C3 A9): `get(0)` is the single byte C3 | the offset counts bytes | high, not executed | AsWritten.StringAddCountsCharacters | Column.StringColumn.Add |
| java/src/main/java/edu/berkeley/amplab/columnar/Column.java:306-308 | the offsets buffer is sized 4 * `arr.size()` (payload bytes) | a new, empty column: one offset, a 0-byte buffer, `BufferOverflowException` | 4 * `posIndex.size()` | high, not executed | AsWritten.StringChunksOverflowWhenEmpty | Column.StringColumn.AsByteBuffers |
| java/src/main/java/edu/berkeley/amplab/columnar/Column.java:306-308 | the same buffer, when larger than the offsets, keeps a zero tail | `add("abc")`, `asByteBuffers()`: the offsets chunk reads back as [0, 3, 0] | exactly one `int` per offset, so that restoring gives the column back | high, not executed | AsWritten.StringChunksPadOffsets | StringLayout.DecodeEncode |
