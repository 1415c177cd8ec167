/**
  * The compact boolean column and the string column exactly as their code
  * reads, as values, with inputs on which they break the behaviour the
  * corrected classes in module Column are proved to have.
  */
module AsWritten {
  import opened Wrappers
  import opened Bytes
  import opened Words
  import BitPacking
  import StringLayout
  import Lists

  /**
    * A compact column as written: the whole backing array of the word list
    * (its capacity), how many of its words the list holds, and `size`.
    */
  datatype CompactState = CompactState(elements: seq<bv64>, count: nat, size: nat)

  /** `initialize(initialCapacity)` on a new column, whose `size` is 0. */
  function NewCompact(initialCapacity: nat): (st: CompactState)
    ensures |st.elements| == initialCapacity / WordBits && st.count == 0 && st.size == 0
  {
    CompactState(seq(initialCapacity / WordBits, _ => 0), 0, 0)
  }

  /** The word list's `add`: store in the next free slot, growing the array to `Grown` capacity when it is full. */
  function ListAdd(elements: seq<bv64>, count: nat, x: bv64): (grown: seq<bv64>)
    requires count <= |elements|
    ensures count < |grown| && grown[..count] == elements[..count] && grown[count] == x
  {
    var room := if count == |elements| then elements + seq(Lists.Grown(|elements|) - |elements|, _ => 0) else elements;
    room[count := x]
  }

  /**
    * `add(v)` as written: a new word when `size` is a multiple of 64, and
    * otherwise bit `size` mod 64 (Java masks the shift count) ORed into the
    * array's last slot, whatever v is. An empty array there is Java's
    * `ArrayIndexOutOfBoundsException`.
    */
  function CompactAdd(st: CompactState, v: bool): (r: Result<CompactState>)
    requires st.count <= |st.elements|
    ensures r.Ok? ==> r.value.size == st.size + 1 && r.value.count <= |r.value.elements|
  {
    if st.size % WordBits == 0 then
      Ok(CompactState(ListAdd(st.elements, st.count, if v then 1 else 0), st.count + 1, st.size + 1))
    else if st.elements == [] then Err(IndexOutOfBounds)
    else
      var last := |st.elements| - 1;
      Ok(CompactState(st.elements[last := SetBit(st.elements[last], st.size % WordBits)], st.count, st.size + 1))
  }

  /** `get(index)`: bit index mod 64 of word index / 64. */
  function CompactGet(st: CompactState, index: nat): (r: Result<bool>)
    ensures r.Ok? <==> index / WordBits < st.count && index / WordBits < |st.elements|
  {
    if index / WordBits < st.count && index / WordBits < |st.elements| then
      Ok(Bit(st.elements[index / WordBits], index % WordBits))
    else Err(IndexOutOfBounds)
  }

  /** `initialize(Iterator)` as written: the restored words replace the list; `size` is kept. */
  function CompactRestore(st: CompactState, words: seq<bv64>): (r: CompactState)
    ensures r.elements == words && r.count == |words| && r.size == st.size
  {
    CompactState(words, |words|, st.size)
  }

  /**
    * `initialize(initialCapacity)` called again on a column in use: a new,
    * empty word list replaces the old one, and `size` is kept.
    */
  function CompactReinit(st: CompactState, initialCapacity: nat): (r: CompactState)
    ensures |r.elements| == initialCapacity / WordBits && r.count == 0 && r.size == st.size
  {
    CompactState(seq(initialCapacity / WordBits, _ => 0), 0, st.size)
  }

  /** Adds each value in turn, stopping at the first failure. */
  function CompactAddAll(st: CompactState, vs: seq<bool>): Result<CompactState>
    requires st.count <= |st.elements|
    decreases |vs|
  {
    if vs == [] then Ok(st)
    else match CompactAdd(st, vs[0])
      case Ok(next) => CompactAddAll(next, vs[1..])
      case Err(e) => Err(e)
  }

  /**
    * Adding false still sets a bit: with room for one word, add(true) then
    * add(false) reads back true at index 1.
    */
  lemma CompactAddFalseSetsBit()
    ensures CompactAddAll(NewCompact(64), [true, false]).Ok?
    ensures CompactGet(CompactAddAll(NewCompact(64), [true, false]).value, 1) == Ok(true)
  {
    assert [true, false][1..] == [false];
    assert [false][1..] == [];
    assert SetBit(1, 1) == 3;
    assert 3 as bv64 & (1 << 1) != 0;
  }

  /**
    * The bit goes to the array's last slot, not word size / 64: with room
    * for two words, add(true) twice reads back false at index 1.
    */
  lemma CompactAddWritesLastSlot()
    ensures CompactAddAll(NewCompact(128), [true, true]).Ok?
    ensures CompactGet(CompactAddAll(NewCompact(128), [true, true]).value, 1) == Ok(false)
  {
    assert [true, true][1..] == [true];
    assert [true][1..] == [];
    assert SetBit(0, 1) == 2;
    assert 1 as bv64 & (1 << 1) == 0;
  }

  /**
    * Restoring keeps `size` at 0: a new column restored from the words of
    * [true] and then given add(true) reads back false at index 1.
    */
  lemma CompactRestoreLosesSize()
    ensures BitPacking.Pack([true]) == [1]
    ensures CompactAdd(CompactRestore(NewCompact(0), [1]), true).Ok?
    ensures CompactGet(CompactAdd(CompactRestore(NewCompact(0), [1]), true).value, 1) == Ok(false)
  {
    assert [true][..0] == [];
    assert SetBit(0, 0) == 1;
    assert 1 as bv64 & (1 << 1) == 0;
  }

  /**
    * Re-initialising keeps `size`: after five adds, `initialize(64)` and
    * add(true) set bit 5 of an empty list's spare slot, and get(5) fails;
    * after `initialize(0)` instead, the add itself fails.
    */
  lemma CompactReinitKeepsSize()
    ensures CompactAddAll(NewCompact(64), [true, true, true, true, true]).Ok?
    ensures
      var used := CompactAddAll(NewCompact(64), [true, true, true, true, true]).value;
      && used.size == 5
      && CompactAdd(CompactReinit(used, 64), true).Ok?
      && CompactGet(CompactAdd(CompactReinit(used, 64), true).value, 5) == Err(IndexOutOfBounds)
      && CompactAdd(CompactReinit(used, 0), true) == Err(IndexOutOfBounds)
  {
    var vs := [true, true, true, true, true];
    assert vs[1..] == [true, true, true, true];
    assert vs[1..][1..] == [true, true, true];
    assert vs[1..][1..][1..] == [true, true];
    assert vs[1..][1..][1..][1..] == [true];
    assert vs[1..][1..][1..][1..][1..] == [];
  }

  /** A string column as written: the payload and the offset list. */
  datatype StringState = StringState(payload: Chunk, offsets: seq<int32>)

  /** `initialize(initialCapacity)`: an empty payload and the offset list [0]. */
  function NewStrings(): (st: StringState)
    ensures st.payload == [] && st.offsets == [0]
  {
    StringState([], [0])
  }

  /**
    * `add(s)` as written, s given as its bytes and its `length()` in
    * characters: the new offset counts characters, the payload grows by bytes.
    */
  function StringAdd(st: StringState, bytes: Chunk, length: nat): (r: StringState)
    requires |st.payload| + length < StringLayout.MaxPayload
    ensures r.payload == st.payload + bytes && |r.offsets| == |st.offsets| + 1
  {
    StringState(st.payload + bytes, st.offsets + [(|st.payload| + length) as int32])
  }

  /**
    * `get(index)`: the payload between offsets index and index + 1. A span
    * outside the payload fails. The backing array's spare capacity, which
    * `new String` could also read, is not part of this state.
    */
  function StringGet(st: StringState, index: nat): (r: Result<Chunk>)
    ensures r.Ok? ==> index + 1 < |st.offsets| && |r.value| == st.offsets[index + 1] as int - st.offsets[index] as int
  {
    if index + 1 < |st.offsets| && 0 <= st.offsets[index] <= st.offsets[index + 1] && st.offsets[index + 1] as int <= |st.payload| then
      Ok(st.payload[st.offsets[index]..st.offsets[index + 1]])
    else Err(IndexOutOfBounds)
  }

  /**
    * A string whose bytes outnumber its characters reads back cut short:
    * "é" is one character and the two bytes C3 A9, and reads back as C3 alone.
    */
  lemma StringAddCountsCharacters()
    ensures StringGet(StringAdd(NewStrings(), [0xC3, 0xA9], 1), 0) == Ok([0xC3])
  {
    var st := StringAdd(NewStrings(), [0xC3, 0xA9], 1);
    assert st.payload == [0xC3, 0xA9] && st.offsets == [0, 1];
    assert st.payload[0..1] == [0xC3];
  }

  /**
    * `asByteBuffers` as written: the offsets buffer holds 4 bytes per payload
    * byte, not per offset. Too small, `put` overflows; larger, the unused
    * tail stays zero.
    */
  function StringChunks(st: StringState): (r: Result<seq<Chunk>>)
    ensures r.Ok? <==> |st.offsets| <= |st.payload|
    ensures r.Ok? ==> |r.value| == 2 && |r.value[1]| == 4 * |st.payload|
  {
    if |st.offsets| > |st.payload| then Err(BufferOverflow)
    else Ok([st.payload, StringLayout.EncodeOffsets(st.offsets) + seq(4 * (|st.payload| - |st.offsets|), _ => 0)])
  }

  /** An empty column (payload empty, offsets [0]) cannot be serialised at all. */
  lemma StringChunksOverflowWhenEmpty()
    ensures StringChunks(NewStrings()) == Err(BufferOverflow)
  {
  }

  /**
    * ["abc"] serialises its offsets [0, 3] into 12 bytes, which read back as
    * [0, 3, 0]; restoring those chunks is refused, not the column it came from.
    */
  lemma StringChunksPadOffsets()
    ensures StringChunks(StringAdd(NewStrings(), [0x61, 0x62, 0x63], 3)).Ok?
    ensures
      var chunks := StringChunks(StringAdd(NewStrings(), [0x61, 0x62, 0x63], 3)).value;
      && StringLayout.DecodeOffsets(chunks[1]) == Ok([0, 3, 0])
      && StringLayout.Decode(chunks) == Err(Malformed)
  {
    var st := StringAdd(NewStrings(), [0x61, 0x62, 0x63], 3);
    assert st.offsets == [0, 3];
    Int32CodecExact();
    var zero := Int32ToBytes(0);
    assert zero == [0, 0, 0, 0];
    assert seq(4 * (|st.payload| - |st.offsets|), _ => 0 as uint8) == zero;
    assert EncodeAll(Int32Codec(), [0]) == zero;
    assert EncodeAll(Int32Codec(), [3, 0]) == Int32ToBytes(3) + zero;
    assert EncodeAll(Int32Codec(), [0, 3, 0]) == zero + Int32ToBytes(3) + zero;
    assert EncodeAll(Int32Codec(), [0, 3]) + zero == EncodeAll(Int32Codec(), [0, 3, 0]);
    Bytes.DecodeEncode(Int32Codec(), [0, 3, 0]);
  }
}
