/**
  * The bit layout of the compact boolean column: element i lives in bit
  * i mod 64 of word i / 64, and the bits of the last word at or beyond the
  * column's size are zero. `Pack` is that layout as a reference definition;
  * `Unpack` reads it back.
  */
module BitPacking {
  import opened Wrappers
  import opened Bytes
  import opened Words

  /** Words needed for n booleans: ceil(n / 64). */
  function WordsFor(n: nat): nat {
    (n + WordBits - 1) / WordBits
  }

  /** The word whose low |bits| bits are bits (bit j is bits[j]) and whose other bits are zero. */
  function WordOf(bits: seq<bool>): bv64
    requires |bits| <= WordBits
  {
    if bits == [] then 0
    else if bits[|bits| - 1] then SetBit(WordOf(bits[..|bits| - 1]), |bits| - 1)
    else WordOf(bits[..|bits| - 1])
  }

  lemma {:induction false} WordOfBit(bits: seq<bool>, j: nat)
    requires |bits| <= WordBits && j < WordBits
    ensures Bit(WordOf(bits), j) == (j < |bits| && bits[j])
  {
    if bits != [] {
      WordOfBit(bits[..|bits| - 1], j);
      if bits[|bits| - 1] {
        SetBitAt(WordOf(bits[..|bits| - 1]), |bits| - 1, j);
      }
    }
  }

  /** Where the last word of n > 0 booleans begins: the largest multiple of 64 below n. */
  function LastStart(n: nat): (m: nat)
    requires n > 0
    ensures m < n <= m + WordBits && m % WordBits == 0
    ensures WordsFor(m) + 1 == WordsFor(n) && m == WordBits * WordsFor(m)
  {
    WordBits * ((n - 1) / WordBits)
  }

  /** The reference packing: 64 booleans per word, first word first, padding bits zero. */
  function Pack(bs: seq<bool>): (ws: seq<bv64>)
    ensures |ws| == WordsFor(|bs|)
    decreases |bs|
  {
    if bs == [] then []
    else Pack(bs[..LastStart(|bs|)]) + [WordOf(bs[LastStart(|bs|)..])]
  }

  /** Bit j of word k of a packing is element 64 * k + j, and zero past the end. */
  lemma {:induction false} PackBit(bs: seq<bool>, k: nat, j: nat)
    requires k < WordsFor(|bs|) && j < WordBits
    ensures Bit(Pack(bs)[k], j) == (WordBits * k + j < |bs| && bs[WordBits * k + j])
    decreases |bs|
  {
    var m := LastStart(|bs|);
    if k == WordsFor(m) {
      WordOfBit(bs[m..], j);
    } else {
      PackBit(bs[..m], k, j);
      WordBelowStart(m, k, j);
    }
  }

  lemma WordBelowStart(m: nat, k: nat, j: nat)
    requires k < WordsFor(m) && m % WordBits == 0 && j < WordBits
    ensures WordBits * k + j < m
  {
  }

  /** The booleans held in the first n bits of ws. */
  function Unpack(ws: seq<bv64>, n: nat): (bs: seq<bool>)
    requires n <= WordBits * |ws|
    ensures |bs| == n
  {
    seq(n, i requires 0 <= i < n => Bit(ws[i / WordBits], i % WordBits))
  }

  /** Every bit at or beyond position n is zero. */
  ghost predicate PaddingClear(ws: seq<bv64>, n: nat) {
    forall k, j :: 0 <= k < |ws| && 0 <= j < WordBits && WordBits * k + j >= n ==> !Bit(ws[k], j)
  }

  /** The packing of bs holds bs and nothing else. */
  lemma UnpackPack(bs: seq<bool>)
    ensures WordBits * |Pack(bs)| >= |bs|
    ensures Unpack(Pack(bs), |bs|) == bs
    ensures PaddingClear(Pack(bs), |bs|)
  {
    var ws := Pack(bs);
    forall i | 0 <= i < |bs| ensures Unpack(ws, |bs|)[i] == bs[i] {
      PackBit(bs, i / WordBits, i % WordBits);
    }
    forall k, j | 0 <= k < |ws| && 0 <= j < WordBits && WordBits * k + j >= |bs|
      ensures !Bit(ws[k], j)
    {
      PackBit(bs, k, j);
    }
  }

  /** The first word of a fresh run of 64: bit 0 holds v, every other bit is clear. */
  function SeedWord(v: bool): bv64 {
    if v then 1 else 0
  }

  /** w with bit j set when v holds and unchanged when it does not. */
  function WithBit(w: bv64, j: nat, v: bool): bv64
    requires j < WordBits
  {
    if v then SetBit(w, j) else w
  }

  /** A packing is the packing of all but its last word, then its last word. */
  lemma PackLast(bs: seq<bool>)
    requires bs != []
    ensures Pack(bs) == Pack(bs[..LastStart(|bs|)]) + [WordOf(bs[LastStart(|bs|)..])]
  {
  }

  lemma WordOfSingle(v: bool)
    ensures WordOf([v]) == SeedWord(v)
  {
    assert [v][..0] == [];
    assert SetBit(0, 0) == 1;
  }

  lemma WordOfAppend(bits: seq<bool>, v: bool)
    requires |bits| < WordBits
    ensures WordOf(bits + [v]) == WithBit(WordOf(bits), |bits|, v)
  {
    assert (bits + [v])[..|bits|] == bits;
  }

  /**
    * Appending one boolean at a word boundary starts a new word whose bit 0
    * is v and whose other bits are clear.
    */
  lemma PackAppendAtBoundary(bs: seq<bool>, v: bool)
    requires |bs| % WordBits == 0
    ensures Pack(bs + [v]) == Pack(bs) + [SeedWord(v)]
  {
    var s := bs + [v];
    assert LastStart(|s|) == |bs|;
    assert s[..|bs|] == bs && s[|bs|..] == [v];
    PackLast(s);
    WordOfSingle(v);
  }

  /**
    * Appending one boolean inside a word sets bit |bs| mod 64 of the last
    * word when v holds and leaves it alone when v does not; the other words
    * are untouched.
    */
  lemma PackAppendInWord(bs: seq<bool>, v: bool)
    requires |bs| % WordBits != 0
    ensures |bs| / WordBits < |Pack(bs)|
    ensures
      var k := |bs| / WordBits;
      Pack(bs + [v]) == Pack(bs)[k := WithBit(Pack(bs)[k], |bs| % WordBits, v)]
  {
    var s := bs + [v];
    var m := LastStart(|bs|);
    SameLastStart(|bs|);
    assert s[..m] == bs[..m];
    assert s[m..] == bs[m..] + [v];
    PackLast(bs);
    PackLast(s);
    WordOfAppend(bs[m..], v);
  }

  lemma SameLastStart(n: nat)
    requires n % WordBits != 0
    ensures LastStart(n + 1) == LastStart(n)
    ensures n - LastStart(n) == n % WordBits && n / WordBits == WordsFor(LastStart(n))
  {
  }

  /** Words as big-endian `long`s. */
  function EncodeWords(ws: seq<bv64>): (b: Chunk)
    ensures |b| == 8 * |ws|
  {
    WordCodecLawful();
    EncodeAll(WordCodec(), ws)
  }

  function DecodeWords(b: Chunk): (r: Result<seq<bv64>>)
    ensures r.Ok? ==> 8 * |r.value| == |b|
  {
    WordCodecLawful();
    DecodeAll(WordCodec(), b)
  }

  /** `asByteBuffers`: one chunk holding the packed words. */
  function Encode(bs: seq<bool>): (chunks: seq<Chunk>)
    ensures |chunks| == 1 && |chunks[0]| == 8 * WordsFor(|bs|)
  {
    [EncodeWords(Pack(bs))]
  }

  /**
    * Restoring n booleans from the first chunk: it must be whole words, and
    * exactly the packing of the n booleans it holds (the right number of
    * words, padding bits clear).
    */
  function Decode(chunks: seq<Chunk>, n: nat): (r: Result<seq<bool>>)
    ensures chunks == [] <==> r == Err(NoSuchElement)
    ensures r.Ok? ==> |r.value| == n && DecodeWords(chunks[0]) == Ok(Pack(r.value))
  {
    if chunks == [] then Err(NoSuchElement)
    else match DecodeWords(chunks[0])
      case Err(_) => Err(Malformed)
      case Ok(ws) =>
        if n <= WordBits * |ws| && Pack(Unpack(ws, n)) == ws then Ok(Unpack(ws, n))
        else Err(Malformed)
  }

  /** Round trip: restoring the serialisation of n booleans with count n gives them back. */
  lemma DecodeEncode(bs: seq<bool>)
    ensures Decode(Encode(bs), |bs|) == Ok(bs)
  {
    WordCodecLawful();
    Bytes.DecodeEncode(WordCodec(), Pack(bs));
    UnpackPack(bs);
  }
}
