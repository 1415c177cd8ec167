/**
  * The layout of the string column: every string's bytes concatenated into
  * one payload, and an offset list that starts at 0 and records the payload
  * length after each string, so string i is the payload slice between
  * offsets i and i + 1. Serialised, it is two chunks: the payload, then the
  * offsets as big-endian 32-bit integers.
  */
module StringLayout {
  import opened Wrappers
  import opened Bytes

  /** Offsets are Java `int`s, so the payload must stay below 2^31 bytes. */
  const MaxPayload: nat := 0x8000_0000

  /** The payload: each string's bytes, in insertion order. */
  function Concat(ss: seq<Chunk>): (p: Chunk)
    ensures ss == [] ==> p == []
  {
    if ss == [] then [] else Concat(ss[..|ss| - 1]) + ss[|ss| - 1]
  }

  /** The offset list: 0, then the payload length after each string. */
  function Offsets(ss: seq<Chunk>): (os: seq<int32>)
    requires |Concat(ss)| < MaxPayload
    ensures |os| == |ss| + 1 && os[0] == 0 && os[|ss|] as int == |Concat(ss)|
    ensures forall i :: 0 <= i < |os| ==> 0 <= os[i] as int <= |Concat(ss)|
  {
    if ss == [] then [0] else Offsets(ss[..|ss| - 1]) + [|Concat(ss)| as int32]
  }

  /**
    * What a restored offset list must satisfy against a payload of length n:
    * it starts at 0, never decreases and ends at n.
    */
  predicate WellFormed(os: seq<int32>, n: nat) {
    && |os| >= 1
    && os[0] == 0
    && os[|os| - 1] as int == n
    && forall i, j :: 0 <= i <= j < |os| ==> os[i] <= os[j]
  }

  /** The strings a payload and a well-formed offset list delimit. */
  function Split(p: Chunk, os: seq<int32>): (ss: seq<Chunk>)
    requires WellFormed(os, |p|)
    ensures |ss| == |os| - 1
  {
    seq(|os| - 1, i requires 0 <= i < |os| - 1 => p[os[i]..os[i + 1]])
  }

  /** String i of a column is the payload slice between offsets i and i + 1. */
  lemma {:induction false} SliceAt(ss: seq<Chunk>, i: nat)
    requires |Concat(ss)| < MaxPayload && i < |ss|
    ensures Offsets(ss)[i] <= Offsets(ss)[i + 1]
    ensures Concat(ss)[Offsets(ss)[i]..Offsets(ss)[i + 1]] == ss[i]
  {
    var front := ss[..|ss| - 1];
    var os := Offsets(ss);
    if i < |ss| - 1 {
      SliceAt(front, i);
      assert os[i] == Offsets(front)[i] && os[i + 1] == Offsets(front)[i + 1];
      assert Concat(ss)[os[i]..os[i + 1]] == Concat(front)[os[i]..os[i + 1]];
    } else {
      assert os[i] as int == |Concat(front)|;
    }
  }

  /** Offsets never decrease. */
  lemma {:induction false} OffsetsSorted(ss: seq<Chunk>)
    requires |Concat(ss)| < MaxPayload
    ensures forall i, j :: 0 <= i <= j < |ss| + 1 ==> Offsets(ss)[i] <= Offsets(ss)[j]
  {
    if ss != [] {
      OffsetsSorted(ss[..|ss| - 1]);
    }
  }

  /** The offsets of a column are well formed for its payload, and split it back into the strings. */
  lemma SplitConcat(ss: seq<Chunk>)
    requires |Concat(ss)| < MaxPayload
    ensures WellFormed(Offsets(ss), |Concat(ss)|)
    ensures Split(Concat(ss), Offsets(ss)) == ss
  {
    OffsetsSorted(ss);
    forall i | 0 <= i < |ss| ensures Split(Concat(ss), Offsets(ss))[i] == ss[i] {
      SliceAt(ss, i);
    }
  }

  /** Conversely, the strings a well-formed offset list delimits concatenate back to the payload. */
  lemma {:induction false} ConcatSplit(p: Chunk, os: seq<int32>)
    requires WellFormed(os, |p|)
    ensures Concat(Split(p, os)) == p
    decreases |os|
  {
    var ss := Split(p, os);
    if |os| == 1 {
      assert ss == [];
    } else {
      var n := |os| - 1;
      var head := p[..os[n - 1]];
      SplitFront(p, os);
      ConcatSplit(head, os[..n]);
      SplitLast(p, os);
    }
  }

  /** ... and their offsets are the offset list itself. */
  lemma {:induction false} OffsetsSplit(p: Chunk, os: seq<int32>)
    requires WellFormed(os, |p|)
    ensures |Concat(Split(p, os))| < MaxPayload && Offsets(Split(p, os)) == os
    decreases |os|
  {
    var ss := Split(p, os);
    ConcatSplit(p, os);
    if |os| == 1 {
      assert ss == [];
    } else {
      var n := |os| - 1;
      var head := p[..os[n - 1]];
      SplitFront(p, os);
      OffsetsSplit(head, os[..n]);
      assert Offsets(ss) == Offsets(ss[..n - 1]) + [os[n]];
      assert os[..n] + [os[n]] == os;
    }
  }

  /** The last string delimited is the payload from the second-to-last offset on. */
  lemma SplitLast(p: Chunk, os: seq<int32>)
    requires WellFormed(os, |p|) && |os| > 1
    ensures Concat(Split(p, os)) == Concat(Split(p, os)[..|os| - 2]) + p[os[|os| - 2]..]
    ensures p[..os[|os| - 2]] + p[os[|os| - 2]..] == p
  {
    var ss := Split(p, os);
    assert ss[|os| - 2] == p[os[|os| - 2]..];
  }

  /** Dropping the last offset splits the payload up to it into all strings but the last. */
  lemma SplitFront(p: Chunk, os: seq<int32>)
    requires WellFormed(os, |p|) && |os| > 1
    ensures WellFormed(os[..|os| - 1], os[|os| - 2] as int)
    ensures Split(p[..os[|os| - 2]], os[..|os| - 1]) == Split(p, os)[..|os| - 2]
  {
    var n := |os| - 1;
    var head := p[..os[n - 1]];
    var front := os[..n];
    assert WellFormed(front, |head|);
    forall i | 0 <= i < n - 1 ensures Split(head, front)[i] == Split(p, os)[i] {
      assert front[i + 1] <= os[n - 1];
    }
  }

  /** Offsets as big-endian `int`s. */
  function EncodeOffsets(os: seq<int32>): (b: Chunk)
    ensures |b| == 4 * |os|
  {
    Int32CodecExact();
    EncodeAll(Int32Codec(), os)
  }

  function DecodeOffsets(b: Chunk): (r: Result<seq<int32>>)
    ensures r.Ok? ==> 4 * |r.value| == |b|
  {
    Int32CodecExact();
    DecodeAll(Int32Codec(), b)
  }

  /** `asByteBuffers` as intended: the payload chunk, then the offsets chunk. */
  function Encode(ss: seq<Chunk>): (chunks: seq<Chunk>)
    requires |Concat(ss)| < MaxPayload
    ensures |chunks| == 2 && |chunks[1]| == 4 * (|ss| + 1)
  {
    [Concat(ss), EncodeOffsets(Offsets(ss))]
  }

  /**
    * `initialize(Iterator)`: the first chunk is the payload, the second the
    * offsets. A missing chunk is the iterator running dry; offsets that are
    * not a whole number of `int`s or not well formed are malformed.
    */
  function Decode(chunks: seq<Chunk>): (r: Result<seq<Chunk>>)
    ensures |chunks| < 2 <==> r == Err(NoSuchElement)
    ensures r.Ok? ==>
      && DecodeOffsets(chunks[1]).Ok?
      && Concat(r.value) == chunks[0]
      && |chunks[0]| < MaxPayload
      && Offsets(r.value) == DecodeOffsets(chunks[1]).value
  {
    if |chunks| < 2 then Err(NoSuchElement)
    else match DecodeOffsets(chunks[1])
      case Err(_) => Err(Malformed)
      case Ok(os) =>
        if WellFormed(os, |chunks[0]|) then
          ConcatSplit(chunks[0], os);
          OffsetsSplit(chunks[0], os);
          Ok(Split(chunks[0], os))
        else Err(Malformed)
  }

  /** Round trip: restoring the two chunks of a column gives back its strings. */
  lemma DecodeEncode(ss: seq<Chunk>)
    requires |Concat(ss)| < MaxPayload
    ensures Decode(Encode(ss)) == Ok(ss)
  {
    Int32CodecExact();
    Bytes.DecodeEncode(Int32Codec(), Offsets(ss));
    SplitConcat(ss);
  }

  /** Conversely, two chunks that restore are exactly the serialisation of what they restore to. */
  lemma EncodeDecode(chunks: seq<Chunk>)
    requires |chunks| == 2 && Decode(chunks).Ok?
    ensures Encode(Decode(chunks).value) == chunks
  {
    Int32CodecExact();
    Bytes.EncodeDecode(Int32Codec(), chunks[1]);
  }
}
