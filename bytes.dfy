/**
  * Java's fixed-width integers and the big-endian byte layout that
  * `ByteBuffer.allocate` uses by default, together with the flat
  * "array of fixed-width elements" chunk format every fixed-width column
  * serialises to.
  */
module Bytes {
  import opened Wrappers

  /** One byte of a serialised chunk, read as an unsigned value. */
  newtype uint8 = x: int | 0 <= x < 0x100

  /** Java's `byte`, `int` and `long`. */
  newtype int8 = x: int | -0x80 <= x < 0x80
  newtype int32 = x: int | -0x8000_0000 <= x < 0x8000_0000
  newtype int64 = x: int | -0x8000_0000_0000_0000 <= x < 0x8000_0000_0000_0000

  /** The bytes of one `ByteBuffer` handed out by `asByteBuffers`. */
  type Chunk = seq<uint8>

  function Pow256(k: nat): (p: nat)
    ensures p >= 1
  {
    if k == 0 then 1 else 256 * Pow256(k - 1)
  }

  /** The k low-order base-256 digits of n, most significant first. */
  function ToBytes(n: nat, k: nat): (r: Chunk)
    ensures |r| == k
  {
    if k == 0 then [] else ToBytes(n / 256, k - 1) + [(n % 256) as uint8]
  }

  /** The number whose big-endian base-256 digits are b. */
  function FromBytes(b: Chunk): (n: nat)
    ensures n < Pow256(|b|)
  {
    if b == [] then 0 else FromBytes(b[..|b| - 1]) * 256 + b[|b| - 1] as int
  }

  lemma {:induction false} FromToBytes(n: nat, k: nat)
    requires n < Pow256(k)
    ensures FromBytes(ToBytes(n, k)) == n
  {
    if k > 0 {
      var r := ToBytes(n, k);
      assert r[..k - 1] == ToBytes(n / 256, k - 1);
      FromToBytes(n / 256, k - 1);
    }
  }

  lemma {:induction false} ToFromBytes(b: Chunk)
    ensures ToBytes(FromBytes(b), |b|) == b
  {
    if b != [] {
      var prefix := b[..|b| - 1];
      ToFromBytes(prefix);
      assert b == prefix + [b[|b| - 1]];
    }
  }

  /** Half the range of k bytes: the signed values of k bytes are those in [-Half(k), Half(k)). */
  function Half(k: nat): (h: nat)
    requires k > 0
    ensures 2 * h == Pow256(k)
  {
    128 * Pow256(k - 1)
  }

  /** The unsigned k-byte pattern of a signed value (two's complement). */
  function TwosComplement(x: int, k: nat): (u: nat)
    requires k > 0 && -(Half(k) as int) <= x < Half(k)
    ensures u < Pow256(k)
    ensures x >= 0 ==> u == x
  {
    if x < 0 then x + Pow256(k) else x
  }

  /** The signed value of an unsigned k-byte pattern. */
  function FromTwosComplement(u: nat, k: nat): (x: int)
    requires k > 0 && u < Pow256(k)
    ensures -(Half(k) as int) <= x < Half(k)
  {
    if u >= Half(k) then u - Pow256(k) else u
  }

  function Int8ToBytes(x: int8): (r: Chunk)
    ensures |r| == 1
  {
    ToBytes(TwosComplement(x as int, 1), 1)
  }

  function Int8FromBytes(b: Chunk): int8
    requires |b| == 1
  {
    FromTwosComplement(FromBytes(b), 1) as int8
  }

  function Int32ToBytes(x: int32): (r: Chunk)
    ensures |r| == 4
  {
    ToBytes(TwosComplement(x as int, 4), 4)
  }

  function Int32FromBytes(b: Chunk): int32
    requires |b| == 4
  {
    FromTwosComplement(FromBytes(b), 4) as int32
  }

  function Int64ToBytes(x: int64): (r: Chunk)
    ensures |r| == 8
  {
    ToBytes(TwosComplement(x as int, 8), 8)
  }

  function Int64FromBytes(b: Chunk): int64
    requires |b| == 8
  {
    FromTwosComplement(FromBytes(b), 8) as int64
  }

  /** A 64-bit word used as a bit set, written as Java writes the `long` with the same bits. */
  function WordToBytes(w: bv64): (r: Chunk)
    ensures |r| == 8
  {
    ToBytes(w as int, 8)
  }

  function WordFromBytes(b: Chunk): bv64
    requires |b| == 8
  {
    FromBytes(b) as bv64
  }

  /** How one element type is laid out in a chunk: a fixed width and a byte pattern per value. */
  datatype Codec<!T> = Codec(width: nat, encode: T -> Chunk, decode: Chunk --> T)

  /** Every value encodes to exactly `width` bytes, which decode back to it. */
  ghost predicate Lawful<T(!new)>(c: Codec<T>) {
    && c.width > 0
    && (forall b: Chunk {:trigger c.decode.requires(b)} :: |b| == c.width ==> c.decode.requires(b))
    && (forall x :: |c.encode(x)| == c.width && c.decode(c.encode(x)) == x)
  }

  /** Every `width`-byte pattern is the encoding of the value it decodes to. */
  ghost predicate Exact<T(!new)>(c: Codec<T>)
    requires Lawful(c)
  {
    forall b: Chunk {:trigger c.decode(b)} :: |b| == c.width ==> c.encode(c.decode(b)) == b
  }

  function Int8Codec(): Codec<int8> {
    Codec(1, Int8ToBytes, b requires |b| == 1 => Int8FromBytes(b))
  }

  function Int32Codec(): Codec<int32> {
    Codec(4, Int32ToBytes, b requires |b| == 4 => Int32FromBytes(b))
  }

  function Int64Codec(): Codec<int64> {
    Codec(8, Int64ToBytes, b requires |b| == 8 => Int64FromBytes(b))
  }

  function WordCodec(): Codec<bv64> {
    Codec(8, WordToBytes, b requires |b| == 8 => WordFromBytes(b))
  }

  lemma Int8CodecExact()
    ensures Lawful(Int8Codec()) && Exact(Int8Codec())
  {
    forall x: int8 ensures Int8FromBytes(Int8ToBytes(x)) == x {
      FromToBytes(TwosComplement(x as int, 1), 1);
    }
    forall b: Chunk | |b| == 1 ensures Int8ToBytes(Int8FromBytes(b)) == b {
      ToFromBytes(b);
    }
  }

  lemma Int32CodecExact()
    ensures Lawful(Int32Codec()) && Exact(Int32Codec())
  {
    forall x: int32 ensures Int32FromBytes(Int32ToBytes(x)) == x {
      FromToBytes(TwosComplement(x as int, 4), 4);
    }
    forall b: Chunk | |b| == 4 ensures Int32ToBytes(Int32FromBytes(b)) == b {
      ToFromBytes(b);
    }
  }

  lemma Int64CodecExact()
    ensures Lawful(Int64Codec()) && Exact(Int64Codec())
  {
    forall x: int64 ensures Int64FromBytes(Int64ToBytes(x)) == x {
      FromToBytes(TwosComplement(x as int, 8), 8);
    }
    forall b: Chunk | |b| == 8 ensures Int64ToBytes(Int64FromBytes(b)) == b {
      ToFromBytes(b);
    }
  }

  lemma WordCodecLawful()
    ensures Lawful(WordCodec())
  {
    forall w: bv64 ensures WordFromBytes(WordToBytes(w)) == w {
      FromToBytes(w as int, 8);
    }
  }

  /** The flat chunk of a column: each element's bytes, in insertion order. */
  function EncodeAll<T(!new)>(c: Codec<T>, xs: seq<T>): (r: Chunk)
    requires Lawful(c)
    ensures |r| == c.width * |xs|
  {
    if xs == [] then [] else c.encode(xs[0]) + EncodeAll(c, xs[1..])
  }

  /** Appending one element appends its bytes. */
  lemma {:induction false} EncodeAllSnoc<T(!new)>(c: Codec<T>, xs: seq<T>, x: T)
    requires Lawful(c)
    ensures EncodeAll(c, xs + [x]) == EncodeAll(c, xs) + c.encode(x)
  {
    if xs != [] {
      assert (xs + [x])[1..] == xs[1..] + [x];
      EncodeAllSnoc(c, xs[1..], x);
    } else {
      assert [x][1..] == [];
    }
  }

  /** `buffer.asXBuffer().put(elements)`: writes every element of a, in order, into a fresh chunk. */
  method Put<T(!new)>(c: Codec<T>, a: array<T>) returns (b: Chunk)
    requires Lawful(c)
    ensures b == EncodeAll(c, a[..])
  {
    b := [];
    for i := 0 to a.Length
      invariant b == EncodeAll(c, a[..i])
    {
      EncodeAllSnoc(c, a[..i], a[i]);
      assert a[..i + 1] == a[..i] + [a[i]];
      b := b + c.encode(a[i]);
    }
    assert a[..] == a[..a.Length];
  }

  /** Reads a flat chunk back; a trailing partial element makes it malformed. */
  function DecodeAll<T(!new)>(c: Codec<T>, b: Chunk): (r: Result<seq<T>>)
    requires Lawful(c)
    ensures r.Ok? ==> c.width * |r.value| == |b|
    ensures r.Err? ==> r.error == Malformed
    decreases |b|
  {
    if b == [] then Ok([])
    else if |b| < c.width then Err(Malformed)
    else
      match DecodeAll(c, b[c.width..])
      case Ok(rest) => Ok([c.decode(b[..c.width])] + rest)
      case Err(e) => Err(e)
  }

  /** Restore from the first chunk of an iterator; no chunk at all is Java's `next()` failing. */
  function DecodeFirst<T(!new)>(c: Codec<T>, chunks: seq<Chunk>): (r: Result<seq<T>>)
    requires Lawful(c)
    ensures chunks == [] <==> r == Err(NoSuchElement)
  {
    if chunks == [] then Err(NoSuchElement) else DecodeAll(c, chunks[0])
  }

  /** Element i occupies bytes [width * i, width * (i + 1)) of the chunk. */
  lemma {:induction false} EncodeAllAt<T(!new)>(c: Codec<T>, xs: seq<T>, i: nat)
    requires Lawful(c) && i < |xs|
    ensures c.width * (i + 1) <= |EncodeAll(c, xs)|
    ensures EncodeAll(c, xs)[c.width * i .. c.width * (i + 1)] == c.encode(xs[i])
  {
    var w := c.width;
    var e := EncodeAll(c, xs);
    if i == 0 {
      assert e[..w] == c.encode(xs[0]);
    } else {
      EncodeAllAt(c, xs[1..], i - 1);
      var rest := EncodeAll(c, xs[1..]);
      assert w * i == w + w * (i - 1);
      assert w * (i + 1) == w + w * i;
      assert e[w * i .. w * (i + 1)] == rest[w * (i - 1) .. w * i];
    }
  }

  /** Round trip: decoding an encoding gives back the elements. */
  lemma {:induction false} DecodeEncode<T(!new)>(c: Codec<T>, xs: seq<T>)
    requires Lawful(c)
    ensures DecodeAll(c, EncodeAll(c, xs)) == Ok(xs)
  {
    if xs != [] {
      var e := EncodeAll(c, xs);
      assert e[..c.width] == c.encode(xs[0]);
      assert e[c.width..] == EncodeAll(c, xs[1..]);
      DecodeEncode(c, xs[1..]);
      assert [xs[0]] + xs[1..] == xs;
    }
  }

  /** Conversely, a chunk that decodes is exactly the encoding of what it decodes to. */
  lemma {:induction false} EncodeDecode<T(!new)>(c: Codec<T>, b: Chunk)
    requires Lawful(c) && Exact(c) && DecodeAll(c, b).Ok?
    ensures EncodeAll(c, DecodeAll(c, b).value) == b
    decreases |b|
  {
    if b != [] {
      var xs := DecodeAll(c, b).value;
      EncodeDecode(c, b[c.width..]);
      assert xs[1..] == DecodeAll(c, b[c.width..]).value;
      assert b == b[..c.width] + b[c.width..];
    }
  }

  /** A chunk is malformed exactly when its length is not a multiple of the element width. */
  lemma {:induction false} DecodeAllFails<T(!new)>(c: Codec<T>, b: Chunk)
    requires Lawful(c)
    ensures DecodeAll(c, b).Err? <==> |b| % c.width != 0
    decreases |b|
  {
    if b != [] && |b| >= c.width {
      DecodeAllFails(c, b[c.width..]);
      ModMinusWidth(|b|, c.width);
    }
  }

  lemma ModMinusWidth(a: int, w: int)
    requires 0 < w <= a
    ensures (a - w) % w == a % w
  {
    var q, r := (a - w) / w, (a - w) % w;
    assert a - w == w * q + r;
    DivModUnique(a, w, q + 1, r);
  }

  lemma {:induction false} MulAtLeast(w: int, d: int)
    requires w > 0 && d >= 1
    ensures w * d >= w
  {
    if d > 1 {
      MulAtLeast(w, d - 1);
      assert w * d == w * (d - 1) + w;
    }
  }

  lemma DivModUnique(a: int, w: int, q: int, r: int)
    requires w > 0 && a == w * q + r && 0 <= r < w
    ensures q == a / w && r == a % w
  {
    var q0, r0 := a / w, a % w;
    assert a == w * q0 + r0;
    if q > q0 { MulAtLeast(w, q - q0); }
    if q < q0 { MulAtLeast(w, q0 - q); }
  }
}
