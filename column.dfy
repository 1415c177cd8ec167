/**
  * The column family: append-only, array-backed sequences that serialise to
  * an ordered list of byte chunks and can be rebuilt from one.
  *
  * Each column's logical contents are a ghost value tied to its backing
  * lists by `Valid()`; `Add` extends them by one element, `Get` reads one,
  * `AsByteBuffers` trims the backing lists and writes the chunks, and
  * `InitializeFrom` rebuilds the column from chunks, or reports why it cannot.
  */
module Column {
  import opened Wrappers
  import opened Bytes
  import opened Lists
  import opened Words
  import BitPacking
  import StringLayout

  /**
    * `IntColumn`, `LongColumn`, `FloatColumn`, `DoubleColumn` and
    * `ByteColumn`: one list of fixed-width values, serialised as one chunk.
    * They differ only in the element codec: `Int32Codec()` for `IntColumn`,
    * `Int64Codec()` for `LongColumn`, `Int8Codec()` for `ByteColumn`, and
    * for `FloatColumn` and `DoubleColumn` the same two integer codecs applied
    * to the raw IEEE 754 bit patterns of the values.
    */
  class FixedColumn<T(0,!new)> {
    const codec: Codec<T>
    var arr: ArrayList<T>
    ghost var Repr: set<object>

    ghost predicate Valid()
      reads this, Repr
    {
      && this in Repr && arr in Repr && arr.Repr <= Repr && this !in arr.Repr
      && arr.Valid() && Lawful(codec)
    }

    /** The column's values, in insertion order. */
    ghost function Values(): seq<T>
      reads this, Repr
      requires Valid()
    {
      arr.Contents()
    }

    /** `initialize(initialCapacity)`: an empty column. */
    constructor Initialize(codec: Codec<T>, initialCapacity: nat)
      requires Lawful(codec)
      ensures Valid() && fresh(Repr) && this.codec == codec
      ensures Values() == [] && arr.elements.Length == initialCapacity
    {
      this.codec := codec;
      arr := new ArrayList(initialCapacity);
      new;
      Repr := {this} + arr.Repr;
    }

    /**
      * `initialize(Iterator)`: the values of the first chunk. With no chunk,
      * or a chunk that is not whole elements, the column is left as it was.
      */
    method InitializeFrom(chunks: seq<Chunk>) returns (r: Outcome)
      requires Valid()
      modifies this
      ensures Valid() && fresh(Repr - old(Repr))
      ensures DecodeFirst(codec, chunks).Ok? ==> r == Pass && Values() == DecodeFirst(codec, chunks).value
      ensures DecodeFirst(codec, chunks).Err? ==>
        r == Fail(DecodeFirst(codec, chunks).error) && Values() == old(Values())
    {
      var decoded := DecodeFirst(codec, chunks);
      if decoded.Ok? {
        arr := new ArrayList<T>.FromArray(decoded.value);
        Repr := {this} + arr.Repr;
        r := Pass;
      } else {
        r := Fail(decoded.error);
      }
    }

    /** `asByteBuffers`: trims the list, then writes every value into one chunk. */
    method AsByteBuffers() returns (chunks: seq<Chunk>)
      requires Valid()
      modifies Repr
      ensures Valid() && fresh(Repr - old(Repr))
      ensures Values() == old(Values()) && arr.elements.Length == |Values()|
      ensures chunks == [EncodeAll(codec, Values())]
    {
      arr.Trim();
      Repr := Repr + arr.Repr;
      assert arr.elements[..] == arr.Contents();
      var b := Put(codec, arr.elements);
      chunks := [b];
    }

    function Get(index: nat): (x: T)
      reads this, Repr
      requires Valid() && index < |Values()|
      ensures x == Values()[index]
    {
      arr.Get(index)
    }

    method Add(v: T)
      requires Valid()
      modifies Repr
      ensures Valid() && fresh(Repr - old(Repr))
      ensures Values() == old(Values()) + [v]
    {
      arr.Add(v);
      Repr := Repr + arr.Repr;
    }
  }

  /** Restoring the chunks a fixed-width column writes gives back its values. */
  lemma FixedRoundTrip<T(!new)>(c: Codec<T>, xs: seq<T>)
    requires Lawful(c)
    ensures DecodeFirst(c, [EncodeAll(c, xs)]) == Ok(xs)
  {
    DecodeEncode(c, xs);
  }

  /** The byte a `BooleanColumn` stores for a value: `(byte) (v ? 1 : 0)`. */
  function BoolByte(v: bool): (b: int8)
    ensures b == 0 || b == 1
    ensures (b != 0) == v
  {
    if v then 1 else 0
  }

  /** The booleans a list of bytes reads as: a byte is true when it is not zero. */
  function AsBooleans(bytes: seq<int8>): (bs: seq<bool>)
    ensures |bs| == |bytes|
  {
    seq(|bytes|, i requires 0 <= i < |bytes| => bytes[i] != 0)
  }

  /** Java `byte`s as chunk bytes: the same bit patterns. */
  function BytesChunk(xs: seq<int8>): (b: Chunk)
    ensures |b| == |xs|
  {
    Int8CodecExact();
    EncodeAll(Int8Codec(), xs)
  }

  /** Chunk bytes as Java `byte`s: every chunk is whole bytes. */
  function ChunkBytes(b: Chunk): (xs: seq<int8>)
    ensures |xs| == |b|
  {
    Int8CodecExact();
    DecodeAllFails(Int8Codec(), b);
    DecodeAll(Int8Codec(), b).value
  }

  /** The two conversions are inverse to each other. */
  lemma BytesRoundTrip(xs: seq<int8>, b: Chunk)
    ensures ChunkBytes(BytesChunk(xs)) == xs
    ensures BytesChunk(ChunkBytes(b)) == b
  {
    Int8CodecExact();
    DecodeEncode(Int8Codec(), xs);
    DecodeAllFails(Int8Codec(), b);
    EncodeDecode(Int8Codec(), b);
  }

  /** `BooleanColumn`: one byte per value. */
  class BooleanColumn {
    var arr: ArrayList<int8>
    ghost var Repr: set<object>

    ghost predicate Valid()
      reads this, Repr
    {
      && this in Repr && arr in Repr && arr.Repr <= Repr && this !in arr.Repr
      && arr.Valid()
    }

    /** The stored bytes. */
    ghost function Stored(): seq<int8>
      reads this, Repr
      requires Valid()
    {
      arr.Contents()
    }

    /** The column's values, in insertion order. */
    ghost function Values(): seq<bool>
      reads this, Repr
      requires Valid()
    {
      AsBooleans(Stored())
    }

    constructor Initialize(initialCapacity: nat)
      ensures Valid() && fresh(Repr)
      ensures Stored() == [] && arr.elements.Length == initialCapacity
    {
      arr := new ArrayList(initialCapacity);
      new;
      Repr := {this} + arr.Repr;
    }

    /** `initialize(Iterator)`: the bytes of the first chunk, whatever they are. */
    method InitializeFrom(chunks: seq<Chunk>) returns (r: Outcome)
      requires Valid()
      modifies this
      ensures Valid() && fresh(Repr - old(Repr))
      ensures chunks == [] ==> r == Fail(NoSuchElement) && Stored() == old(Stored())
      ensures chunks != [] ==> r == Pass && Stored() == ChunkBytes(chunks[0])
    {
      if chunks == [] {
        r := Fail(NoSuchElement);
      } else {
        arr := new ArrayList<int8>.FromArray(ChunkBytes(chunks[0]));
        Repr := {this} + arr.Repr;
        r := Pass;
      }
    }

    method AsByteBuffers() returns (chunks: seq<Chunk>)
      requires Valid()
      modifies Repr
      ensures Valid() && fresh(Repr - old(Repr))
      ensures Stored() == old(Stored()) && arr.elements.Length == |Stored()|
      ensures chunks == [BytesChunk(Stored())]
    {
      Int8CodecExact();
      arr.Trim();
      Repr := Repr + arr.Repr;
      assert arr.elements[..] == arr.Contents();
      var b := Put(Int8Codec(), arr.elements);
      chunks := [b];
    }

    function Get(index: nat): (v: bool)
      reads this, Repr
      requires Valid() && index < |Values()|
      ensures v == Values()[index]
    {
      arr.Get(index) != 0
    }

    method Add(v: bool)
      requires Valid()
      modifies Repr
      ensures Valid() && fresh(Repr - old(Repr))
      ensures Stored() == old(Stored()) + [BoolByte(v)]
      ensures Values() == old(Values()) + [v]
    {
      arr.Add(if v then 1 else 0);
      Repr := Repr + arr.Repr;
    }
  }

  /**
    * Bytes written by `add` are all 0 or 1, and then the stored bytes are
    * determined by the values: serialising a column built by `add` depends
    * only on what was added.
    */
  lemma {:induction false} StoredOfValues(bs: seq<bool>)
    ensures AsBooleans(seq(|bs|, i requires 0 <= i < |bs| => BoolByte(bs[i]))) == bs
  {
  }

  /**
    * `BooleanCompactColumn`: 64 values per `long`, value i in bit i mod 64
    * of word i / 64, and a count of the values held.
    */
  class BooleanCompactColumn {
    var arr: ArrayList<bv64>
    var size: nat
    ghost var Contents: seq<bool>
    ghost var Repr: set<object>

    /** The words are exactly the packing of the values; `size` counts them. */
    ghost predicate Valid()
      reads this, Repr
    {
      && this in Repr && arr in Repr && arr.Repr <= Repr && this !in arr.Repr
      && arr.Valid()
      && arr.Contents() == BitPacking.Pack(Contents)
      && size == |Contents|
    }

    /** `initialize(initialCapacity)`: room for initialCapacity / 64 words. */
    constructor Initialize(initialCapacity: nat)
      ensures Valid() && fresh(Repr)
      ensures Contents == [] && arr.elements.Length == initialCapacity / WordBits
    {
      arr := new ArrayList(initialCapacity / WordBits);
      size := 0;
      Contents := [];
      new;
      Repr := {this} + arr.Repr;
    }

    /**
      * `initialize(initialCapacity)` called again on a column in use: a new
      * word list replaces the old one, and `size` goes back to 0 with it.
      */
    method Reinitialize(initialCapacity: nat)
      modifies this
      ensures Valid() && fresh(Repr - {this})
      ensures Contents == [] && arr.elements.Length == initialCapacity / WordBits
    {
      arr := new ArrayList(initialCapacity / WordBits);
      size := 0;
      Contents := [];
      Repr := {this} + arr.Repr;
    }

    /**
      * `initialize(Iterator)`, given the number of values the chunk holds,
      * which the chunk itself does not record.
      */
    method InitializeFrom(chunks: seq<Chunk>, count: nat) returns (r: Outcome)
      requires Valid()
      modifies this
      ensures Valid() && fresh(Repr - old(Repr))
      ensures BitPacking.Decode(chunks, count).Ok? ==>
        r == Pass && Contents == BitPacking.Decode(chunks, count).value
      ensures BitPacking.Decode(chunks, count).Err? ==>
        r == Fail(BitPacking.Decode(chunks, count).error) && Contents == old(Contents)
    {
      var decoded := BitPacking.Decode(chunks, count);
      if decoded.Ok? {
        var ws := BitPacking.DecodeWords(chunks[0]).value;
        arr := new ArrayList<bv64>.FromArray(ws);
        size := count;
        Contents := decoded.value;
        Repr := {this} + arr.Repr;
        r := Pass;
      } else {
        r := Fail(decoded.error);
      }
    }

    method AsByteBuffers() returns (chunks: seq<Chunk>)
      requires Valid()
      modifies Repr
      ensures Valid() && fresh(Repr - old(Repr))
      ensures Contents == old(Contents) && arr.elements.Length == BitPacking.WordsFor(size)
      ensures chunks == BitPacking.Encode(Contents)
    {
      WordCodecLawful();
      arr.Trim();
      Repr := Repr + arr.Repr;
      assert arr.elements[..] == arr.Contents();
      var b := Put(WordCodec(), arr.elements);
      chunks := [b];
    }

    /** `get(index)`: bit index mod 64 (Java masks the shift count) of word index / 64. */
    function Get(index: nat): (v: bool)
      reads this, Repr
      requires Valid() && index < size
      ensures v == Contents[index]
    {
      BitPacking.PackBit(Contents, index / WordBits, index % WordBits);
      Bit(arr.Get(index / WordBits), index % WordBits)
    }

    /**
      * `add(v)`: at a word boundary a new word seeded with v; otherwise bit
      * size mod 64 of word size / 64 is set when v holds.
      */
    method Add(v: bool)
      requires Valid()
      modifies Repr
      ensures Valid() && fresh(Repr - old(Repr))
      ensures Contents == old(Contents) + [v] && size == old(size) + 1
      ensures |arr.Contents()| == BitPacking.WordsFor(size)
    {
      if size % WordBits == 0 {
        StartWord(v);
      } else {
        SetInWord(v);
      }
    }

    /** The boundary case of `add`: `arr.add(v ? 1L : 0L)`. */
    method StartWord(v: bool)
      requires Valid() && size % WordBits == 0
      modifies Repr
      ensures Valid() && fresh(Repr - old(Repr))
      ensures Contents == old(Contents) + [v] && size == old(size) + 1
    {
      BitPacking.PackAppendAtBoundary(Contents, v);
      arr.Add(if v then 1 else 0);
      Repr := Repr + arr.Repr;
      size := size + 1;
      Contents := Contents + [v];
    }

    /** The in-word case of `add`: bit size mod 64 of word size / 64 set when v holds. */
    method SetInWord(v: bool)
      requires Valid() && size % WordBits != 0
      modifies Repr
      ensures Valid() && Repr == old(Repr)
      ensures Contents == old(Contents) + [v] && size == old(size) + 1
    {
      BitPacking.PackAppendInWord(Contents, v);
      if v {
        var k := size / WordBits;
        arr.Store(k, SetBit(arr.Get(k), size % WordBits));
      }
      size := size + 1;
      Contents := Contents + [v];
    }
  }

  /**
    * `StringColumn`: the strings' bytes concatenated into one payload `arr`,
    * and the offset list `posIndex`, which starts at 0 and gains the payload
    * length after each string.
    */
  class StringColumn {
    var arr: ArrayList<uint8>
    var posIndex: ArrayList<int32>
    ghost var Contents: seq<Chunk>
    ghost var Repr: set<object>

    ghost predicate Valid()
      reads this, Repr
    {
      && this in Repr && arr in Repr && posIndex in Repr
      && arr.Repr <= Repr && posIndex.Repr <= Repr
      && this !in arr.Repr && this !in posIndex.Repr && arr.Repr !! posIndex.Repr
      && arr.Valid() && posIndex.Valid()
      && |StringLayout.Concat(Contents)| < StringLayout.MaxPayload
      && arr.Contents() == StringLayout.Concat(Contents)
      && posIndex.Contents() == StringLayout.Offsets(Contents)
    }

    /** `initialize(initialCapacity)`: an empty payload and the offset list [0]. */
    constructor Initialize(initialCapacity: nat)
      ensures Valid() && fresh(Repr) && Contents == []
      ensures arr.Contents() == [] && posIndex.Contents() == [0]
    {
      arr := new ArrayList(initialCapacity);
      var offsets := new ArrayList(initialCapacity + 1);
      offsets.Add(0);
      posIndex := offsets;
      Contents := [];
      new;
      Repr := {this} + arr.Repr + posIndex.Repr;
    }

    /**
      * `initialize(Iterator)`: the payload is the first chunk and the offsets
      * the second; the column is left as it was when either is missing or
      * they do not fit together.
      */
    method InitializeFrom(chunks: seq<Chunk>) returns (r: Outcome)
      requires Valid()
      modifies this
      ensures Valid() && fresh(Repr - old(Repr))
      ensures StringLayout.Decode(chunks).Ok? ==>
        r == Pass && Contents == StringLayout.Decode(chunks).value
      ensures StringLayout.Decode(chunks).Err? ==>
        r == Fail(StringLayout.Decode(chunks).error) && Contents == old(Contents)
    {
      var decoded := StringLayout.Decode(chunks);
      if decoded.Ok? {
        var os := StringLayout.DecodeOffsets(chunks[1]).value;
        arr := new ArrayList<uint8>.FromArray(chunks[0]);
        posIndex := new ArrayList<int32>.FromArray(os);
        Contents := decoded.value;
        Repr := {this} + arr.Repr + posIndex.Repr;
        r := Pass;
      } else {
        r := Fail(decoded.error);
      }
    }

    /** `asByteBuffers`: the payload chunk, then the offsets chunk, one `int` per offset. */
    method AsByteBuffers() returns (chunks: seq<Chunk>)
      requires Valid()
      modifies Repr
      ensures Valid() && fresh(Repr - old(Repr))
      ensures Contents == old(Contents)
      ensures arr.elements.Length == |arr.Contents()| && posIndex.elements.Length == |posIndex.Contents()|
      ensures chunks == StringLayout.Encode(Contents)
    {
      Int32CodecExact();
      arr.Trim();
      posIndex.Trim();
      Repr := Repr + arr.Repr + posIndex.Repr;
      assert arr.elements[..] == arr.Contents();
      assert posIndex.elements[..] == posIndex.Contents();
      var payload := arr.elements[..];
      var offsets := Put(Int32Codec(), posIndex.elements);
      chunks := [payload, offsets];
    }

    /** `get(index)`: the payload between offsets index and index + 1. */
    function Get(index: nat): (s: Chunk)
      reads this, Repr
      requires Valid() && index < |Contents|
      ensures s == Contents[index]
    {
      StringLayout.SliceAt(Contents, index);
      arr.elements[posIndex.Get(index)..posIndex.Get(index + 1)]
    }

    /**
      * `add(s)`, s given as its bytes: one more offset, the payload length
      * after s, and s's bytes appended to the payload. Offsets are `int`s,
      * so the payload must stay below 2^31 bytes.
      */
    method Add(s: Chunk)
      requires Valid() && |arr.Contents()| + |s| < StringLayout.MaxPayload
      modifies Repr
      ensures Valid() && fresh(Repr - old(Repr))
      ensures Contents == old(Contents) + [s]
    {
      posIndex.Add((arr.size + |s|) as int32);
      arr.AddAll(s);
      Contents := Contents + [s];
      Repr := Repr + arr.Repr + posIndex.Repr;
    }
  }
}
