/**
 * The `Serde` façade: one serialize/deserialize pair per capability
 * (plain primitive, Single, Array, Pair and Array-Pair adapters), and the
 * laws that hold of them.
 *
 * Foundation's `subdataWithRange` raises a range exception when the range
 * runs past the end of the buffer; the pair decoders therefore have three
 * outcomes, a value, `nil`, or that exception.
 */
module Serde {
  import opened Wrappers
  import opened ByteOrder
  import opened Primitive
  import opened RawAdapters

  /** What a pair decoder does: return an optional value, or raise a range exception. */
  datatype Decoded<T> = Returned(result: Option<T>) | RangeException

  // ---------------------------------------------------------------- primitives

  function DeserializePrimitive<T>(c: Codec<T>, data: seq<Byte>): (r: Option<T>)
  {
    c.deserialize(data)
  }

  function SerializePrimitive<T>(c: Codec<T>, value: T): (r: seq<Byte>)
  {
    c.serialize(value)
  }

  function SerializePrimitives<T>(c: Codec<T>, values: seq<T>): (r: seq<Byte>)
  {
    Concatenated(c, values)
  }

  /** A primitive encodes to `size` bytes and decodes back to itself. */
  lemma PrimitiveRoundTrip<T(!new)>(c: Codec<T>, value: T)
    requires Deserializable(c)
    ensures |SerializePrimitive(c, value)| == c.size
    ensures DeserializePrimitive(c, SerializePrimitive(c, value)) == Some(value)
  {
  }

  /** An array of primitives encodes to `size` bytes per element, and the array decoder recovers it. */
  lemma PrimitivesRoundTrip<T(!new)>(c: Codec<T>, values: seq<T>)
    requires Deserializable(c)
    ensures |SerializePrimitives(c, values)| == |values| * c.size
    ensures c.deserializeAll(SerializePrimitives(c, values)) == values
  {
    ConcatenatedLength(c, values);
    DeserializeAllConcatenated(c, values);
  }

  // ---------------------------------------------------------------- Single

  function DeserializeSingle<T, R>(a: RawSingle<T, R>, data: seq<Byte>): (r: Option<T>)
  {
    a.raw.deserialize(data).FlatMap(a.init)
  }

  function SerializeSingle<T, R>(a: RawSingle<T, R>, value: T): (r: seq<Byte>)
  {
    a.raw.serialize(a.rawValue(value))
  }

  /**
   * Single decoding fails exactly when the raw decode fails or the
   * initialiser rejects the raw value; otherwise it is the initialiser's value.
   */
  lemma SingleDecodeCases<T, R>(a: RawSingle<T, R>, data: seq<Byte>)
    ensures DeserializeSingle(a, data).None? <==>
      (a.raw.deserialize(data).None? || a.init(a.raw.deserialize(data).value).None?)
    ensures a.raw.deserialize(data).Some? ==>
      DeserializeSingle(a, data) == a.init(a.raw.deserialize(data).value)
  {
  }

  /** A raw value that decodes but that the initialiser rejects still gives failure. */
  lemma SingleRejectsInvalidRaw<T, R>(a: RawSingle<T, R>, data: seq<Byte>, raw: R)
    requires a.raw.deserialize(data) == Some(raw)
    requires a.init(raw) == None
    ensures DeserializeSingle(a, data) == None
  {
  }

  /** Round trip, given a lawful raw primitive and an initialiser that accepts the value's own raw value. */
  lemma SingleRoundTrip<T, R(!new)>(a: RawSingle<T, R>, value: T)
    requires Deserializable(a.raw)
    requires a.init(a.rawValue(value)) == Some(value)
    ensures |SerializeSingle(a, value)| == a.raw.size
    ensures DeserializeSingle(a, SerializeSingle(a, value)) == Some(value)
  {
  }

  // ---------------------------------------------------------------- Array

  function DeserializeArray<T, R>(a: RawArray<T, R>, data: seq<Byte>): (r: Option<T>)
  {
    a.init(a.raw.deserializeAll(data))
  }

  function SerializeArray<T, R>(a: RawArray<T, R>, value: T): (r: seq<Byte>)
  {
    Concatenated(a.raw, a.rawValue(value))
  }

  /**
   * The whole buffer goes to the initialiser as one array: one element per
   * whole window of `size` bytes, each the decoding of its window. Only the
   * initialiser can make the result fail.
   */
  lemma ArrayDecodeInput<T, R(!new)>(a: RawArray<T, R>, data: seq<Byte>)
    requires Deserializable(a.raw)
    ensures var elements := a.raw.deserializeAll(data);
      && DeserializeArray(a, data) == a.init(elements)
      && |elements| == |data| / a.raw.size
      && forall i :: 0 <= i < |elements| ==> a.raw.deserializeAt(data, i * a.raw.size) == Some(elements[i])
  {
  }

  /** Array round trip, given a lawful element primitive and an initialiser that accepts the value's raw array. */
  lemma ArrayRoundTrip<T, R(!new)>(a: RawArray<T, R>, value: T)
    requires Deserializable(a.raw)
    requires a.init(a.rawValue(value)) == Some(value)
    ensures |SerializeArray(a, value)| == |a.rawValue(value)| * a.raw.size
    ensures DeserializeArray(a, SerializeArray(a, value)) == Some(value)
  {
    ConcatenatedLength(a.raw, a.rawValue(value));
    DeserializeAllConcatenated(a.raw, a.rawValue(value));
  }

  // ---------------------------------------------------------------- Pair

  /** Decode the two slices and hand both raw values to the initialiser. */
  function PairFromSlices<T, R1, R2>(a: RawPair<T, R1, R2>, rawData1: seq<Byte>, rawData2: seq<Byte>): (r: Option<T>)
  {
    a.raw1.deserialize(rawData1).FlatMap(
      rawValue1 => a.raw2.deserialize(rawData2).FlatMap(
        rawValue2 => a.init((rawValue1, rawValue2))))
  }

  /**
   * Pair decoding as written: slices `[0, size1)` and `[size1, size1 + size2)`.
   * A buffer shorter than `size1 + size2` makes one of the two slices raise.
   */
  function DeserializePair<T, R1, R2>(a: RawPair<T, R1, R2>, data: seq<Byte>): (r: Decoded<T>)
  {
    var size1, size2 := a.raw1.size, a.raw2.size;
    if |data| < size1 + size2 then RangeException
    else Returned(PairFromSlices(a, data[..size1], data[size1..size1 + size2]))
  }

  /** Pair decoding with the length check the source lacks: a short buffer gives `nil`. */
  function DeserializePairOrNil<T, R1, R2>(a: RawPair<T, R1, R2>, data: seq<Byte>): (r: Option<T>)
  {
    var size1, size2 := a.raw1.size, a.raw2.size;
    if |data| < size1 + size2 then None
    else PairFromSlices(a, data[..size1], data[size1..size1 + size2])
  }

  function SerializePair<T, R1, R2>(a: RawPair<T, R1, R2>, value: T): (r: seq<Byte>)
  {
    var (raw1, raw2) := a.rawValue(value);
    a.raw1.serialize(raw1) + a.raw2.serialize(raw2)
  }

  /**
   * On a buffer that covers both slices, pair decoding returns, and fails
   * exactly when one of the sub-decodes or the initialiser fails.
   */
  lemma PairDecodeCases<T, R1, R2>(a: RawPair<T, R1, R2>, data: seq<Byte>)
    requires |data| >= a.raw1.size + a.raw2.size
    ensures var d1 := a.raw1.deserialize(data[..a.raw1.size]);
      var d2 := a.raw2.deserialize(data[a.raw1.size..a.raw1.size + a.raw2.size]);
      && DeserializePair(a, data).Returned?
      && (DeserializePair(a, data).result.None? <==>
            d1.None? || d2.None? || a.init((d1.value, d2.value)).None?)
      && (d1.Some? && d2.Some? ==> DeserializePair(a, data).result == a.init((d1.value, d2.value)))
  {
  }

  /** Bytes at or after `size1 + size2` do not affect pair decoding. */
  lemma PairIgnoresTrailing<T, R1, R2>(a: RawPair<T, R1, R2>, data: seq<Byte>, trailing: seq<Byte>)
    requires |data| == a.raw1.size + a.raw2.size
    ensures DeserializePair(a, data + trailing) == DeserializePair(a, data)
    ensures DeserializePairOrNil(a, data + trailing) == DeserializePairOrNil(a, data)
  {
    var size1, size2 := a.raw1.size, a.raw2.size;
    assert (data + trailing)[..size1] == data[..size1];
    assert (data + trailing)[size1..size1 + size2] == data[size1..size1 + size2];
  }

  /** With raw sizes 2 and 4, a 6-byte buffer splits into bytes 0..2 and 2..6; a 5-byte buffer raises. */
  lemma PairLayoutTwoFour<T, R1, R2>(a: RawPair<T, R1, R2>, data: seq<Byte>)
    requires a.raw1.size == 2 && a.raw2.size == 4
    requires |data| == 5 || |data| == 6
    ensures |data| == 6 ==> DeserializePair(a, data) == Returned(PairFromSlices(a, data[0..2], data[2..6]))
    ensures |data| == 5 ==> DeserializePair(a, data) == RangeException
  {
  }

  /** Pair round trip: the encoding `serialize1(r1) ++ serialize2(r2)` decodes to `init((r1, r2))`. */
  lemma PairRoundTrip<T, R1(!new), R2(!new)>(a: RawPair<T, R1, R2>, value: T)
    requires Deserializable(a.raw1) && Deserializable(a.raw2)
    requires a.init(a.rawValue(value)) == Some(value)
    ensures |SerializePair(a, value)| == a.raw1.size + a.raw2.size
    ensures DeserializePair(a, SerializePair(a, value)) == Returned(Some(value))
    ensures DeserializePairOrNil(a, SerializePair(a, value)) == Some(value)
  {
    var (raw1, raw2) := a.rawValue(value);
    var e1, e2 := a.raw1.serialize(raw1), a.raw2.serialize(raw2);
    assert (e1 + e2)[..a.raw1.size] == e1;
    assert (e1 + e2)[a.raw1.size..a.raw1.size + a.raw2.size] == e2;
  }

  /** As written: every buffer shorter than `size1 + size2` raises instead of returning `nil`. */
  lemma PairShortBufferRaises<T, R1, R2>(a: RawPair<T, R1, R2>, data: seq<Byte>)
    requires |data| < a.raw1.size + a.raw2.size
    ensures DeserializePair(a, data) == RangeException
  {
  }

  /**
   * The corrected decoder never raises: it gives `nil` on a short buffer and
   * agrees with the source's decoder on every other buffer.
   */
  lemma PairOrNilAgrees<T, R1, R2>(a: RawPair<T, R1, R2>, data: seq<Byte>)
    ensures |data| < a.raw1.size + a.raw2.size ==> DeserializePairOrNil(a, data) == None
    ensures |data| >= a.raw1.size + a.raw2.size ==>
      DeserializePair(a, data) == Returned(DeserializePairOrNil(a, data))
  {
  }

  // ---------------------------------------------------------------- Array-Pair

  /** Decode both slices as arrays and hand the two arrays to the initialiser. */
  function ArrayPairFromSlices<T, R1, R2>(a: RawArrayPair<T, R1, R2>, rawData1: seq<Byte>, rawData2: seq<Byte>): (r: Option<T>)
  {
    a.init((a.raw1.deserializeAll(rawData1), a.raw2.deserializeAll(rawData2)))
  }

  /**
   * Array-pair decoding as written: slices at the declared byte lengths
   * `size = (rawSize1, rawSize2)`; a buffer shorter than their sum raises.
   */
  function DeserializeArrayPair<T, R1, R2>(a: RawArrayPair<T, R1, R2>, data: seq<Byte>): (r: Decoded<T>)
  {
    var (rawSize1, rawSize2) := a.size;
    if |data| < rawSize1 + rawSize2 then RangeException
    else Returned(ArrayPairFromSlices(a, data[..rawSize1], data[rawSize1..rawSize1 + rawSize2]))
  }

  /** Array-pair decoding with the length check the source lacks. */
  function DeserializeArrayPairOrNil<T, R1, R2>(a: RawArrayPair<T, R1, R2>, data: seq<Byte>): (r: Option<T>)
  {
    var (rawSize1, rawSize2) := a.size;
    if |data| < rawSize1 + rawSize2 then None
    else ArrayPairFromSlices(a, data[..rawSize1], data[rawSize1..rawSize1 + rawSize2])
  }

  function SerializeArrayPair<T, R1, R2>(a: RawArrayPair<T, R1, R2>, value: T): (r: seq<Byte>)
  {
    var (raw1, raw2) := a.rawValue(value);
    Concatenated(a.raw1, raw1) + Concatenated(a.raw2, raw2)
  }

  /** An array-pair encoding is as long as its two arrays' encodings together. */
  lemma ArrayPairSerializeLength<T, R1(!new), R2(!new)>(a: RawArrayPair<T, R1, R2>, value: T)
    requires FixedWidth(a.raw1) && FixedWidth(a.raw2)
    ensures |SerializeArrayPair(a, value)| ==
      |a.rawValue(value).0| * a.raw1.size + |a.rawValue(value).1| * a.raw2.size
  {
    ConcatenatedLength(a.raw1, a.rawValue(value).0);
    ConcatenatedLength(a.raw2, a.rawValue(value).1);
  }

  /**
   * The arrays handed to the initialiser have as many elements as whole
   * windows fit in the declared byte lengths, whatever the data holds: the
   * declared sizes are never checked against the buffer.
   */
  lemma ArrayPairElementCounts<T, R1(!new), R2(!new)>(a: RawArrayPair<T, R1, R2>, data: seq<Byte>)
    requires Deserializable(a.raw1) && Deserializable(a.raw2)
    requires |data| >= a.size.0 + a.size.1
    ensures var first := a.raw1.deserializeAll(data[..a.size.0]);
      var second := a.raw2.deserializeAll(data[a.size.0..a.size.0 + a.size.1]);
      && DeserializeArrayPair(a, data) == Returned(a.init((first, second)))
      && |first| == a.size.0 / a.raw1.size
      && |second| == a.size.1 / a.raw2.size
  {
  }

  /** Bytes at or after the two declared lengths do not affect array-pair decoding. */
  lemma ArrayPairIgnoresTrailing<T, R1, R2>(a: RawArrayPair<T, R1, R2>, data: seq<Byte>, trailing: seq<Byte>)
    requires |data| == a.size.0 + a.size.1
    ensures DeserializeArrayPair(a, data + trailing) == DeserializeArrayPair(a, data)
    ensures DeserializeArrayPairOrNil(a, data + trailing) == DeserializeArrayPairOrNil(a, data)
  {
    var (rawSize1, rawSize2) := a.size;
    assert (data + trailing)[..rawSize1] == data[..rawSize1];
    assert (data + trailing)[rawSize1..rawSize1 + rawSize2] == data[rawSize1..rawSize1 + rawSize2];
  }

  /**
   * Array-pair round trip, when the two encoded arrays occupy exactly the
   * declared byte lengths.
   */
  lemma ArrayPairRoundTrip<T, R1(!new), R2(!new)>(a: RawArrayPair<T, R1, R2>, value: T)
    requires Deserializable(a.raw1) && Deserializable(a.raw2)
    requires a.init(a.rawValue(value)) == Some(value)
    requires |a.rawValue(value).0| * a.raw1.size == a.size.0
    requires |a.rawValue(value).1| * a.raw2.size == a.size.1
    ensures DeserializeArrayPair(a, SerializeArrayPair(a, value)) == Returned(Some(value))
    ensures DeserializeArrayPairOrNil(a, SerializeArrayPair(a, value)) == Some(value)
  {
    var (raw1, raw2) := a.rawValue(value);
    var e1, e2 := Concatenated(a.raw1, raw1), Concatenated(a.raw2, raw2);
    ConcatenatedLength(a.raw1, raw1);
    ConcatenatedLength(a.raw2, raw2);
    DeserializeAllConcatenated(a.raw1, raw1);
    DeserializeAllConcatenated(a.raw2, raw2);
    assert (e1 + e2)[..a.size.0] == e1;
    assert (e1 + e2)[a.size.0..a.size.0 + a.size.1] == e2;
  }

  /** If each array's encoding fills its declared length, the split gives back both arrays. */
  lemma ArrayPairSplitRecoversArrays<T, R1(!new), R2(!new)>(a: RawArrayPair<T, R1, R2>, raw1: seq<R1>, raw2: seq<R2>)
    requires Deserializable(a.raw1) && Deserializable(a.raw2)
    requires |raw1| * a.raw1.size == a.size.0 && |raw2| * a.raw2.size == a.size.1
    ensures var data := Concatenated(a.raw1, raw1) + Concatenated(a.raw2, raw2);
      && |data| == a.size.0 + a.size.1
      && a.raw1.deserializeAll(data[..a.size.0]) == raw1
      && a.raw2.deserializeAll(data[a.size.0..a.size.0 + a.size.1]) == raw2
  {
    var e1, e2 := Concatenated(a.raw1, raw1), Concatenated(a.raw2, raw2);
    ConcatenatedLength(a.raw1, raw1);
    ConcatenatedLength(a.raw2, raw2);
    DeserializeAllConcatenated(a.raw1, raw1);
    DeserializeAllConcatenated(a.raw2, raw2);
    assert (e1 + e2)[..a.size.0] == e1;
    assert (e1 + e2)[a.size.0..a.size.0 + a.size.1] == e2;
  }

  /** If the split gives back both arrays, each array's encoding fills its declared length. */
  lemma ArrayPairSplitNeedsDeclaredLengths<T, R1(!new), R2(!new)>(a: RawArrayPair<T, R1, R2>, raw1: seq<R1>, raw2: seq<R2>)
    requires Deserializable(a.raw1) && Deserializable(a.raw2)
    requires var data := Concatenated(a.raw1, raw1) + Concatenated(a.raw2, raw2);
      && |data| >= a.size.0 + a.size.1
      && a.raw1.deserializeAll(data[..a.size.0]) == raw1
      && a.raw2.deserializeAll(data[a.size.0..a.size.0 + a.size.1]) == raw2
    ensures |raw1| * a.raw1.size == a.size.0 && |raw2| * a.raw2.size == a.size.1
  {
    var e1, e2 := Concatenated(a.raw1, raw1), Concatenated(a.raw2, raw2);
    var data := e1 + e2;
    var s1, s2 := a.size.0, a.size.1;
    ConcatenatedLength(a.raw1, raw1);
    ConcatenatedLength(a.raw2, raw2);
    var used1, used2 := |raw1| * a.raw1.size, |raw2| * a.raw2.size;
    assert |data[..s1]| == s1 && |data[s1..s1 + s2]| == s2;
    assert |raw1| == s1 / a.raw1.size;
    assert |raw2| == s2 / a.raw2.size;
    WholeWindowsFit(s1, a.raw1.size);
    WholeWindowsFit(s2, a.raw2.size);
    assert used1 <= s1 && used2 <= s2;
    assert |data| == used1 + used2;
  }

  /**
   * For all arrays: the split at the declared lengths gives back the two
   * encoded arrays exactly when each array's encoding fills its declared length.
   */
  lemma ArrayPairSplitRecoversArraysIff<T, R1(!new), R2(!new)>(a: RawArrayPair<T, R1, R2>, raw1: seq<R1>, raw2: seq<R2>)
    requires Deserializable(a.raw1) && Deserializable(a.raw2)
    ensures var data := Concatenated(a.raw1, raw1) + Concatenated(a.raw2, raw2);
      (&& |data| >= a.size.0 + a.size.1
       && a.raw1.deserializeAll(data[..a.size.0]) == raw1
       && a.raw2.deserializeAll(data[a.size.0..a.size.0 + a.size.1]) == raw2)
      <==> (|raw1| * a.raw1.size == a.size.0 && |raw2| * a.raw2.size == a.size.1)
  {
    var data := Concatenated(a.raw1, raw1) + Concatenated(a.raw2, raw2);
    if |raw1| * a.raw1.size == a.size.0 && |raw2| * a.raw2.size == a.size.1 {
      ArrayPairSplitRecoversArrays(a, raw1, raw2);
    }
    if && |data| >= a.size.0 + a.size.1
       && a.raw1.deserializeAll(data[..a.size.0]) == raw1
       && a.raw2.deserializeAll(data[a.size.0..a.size.0 + a.size.1]) == raw2
    {
      ArrayPairSplitNeedsDeclaredLengths(a, raw1, raw2);
    }
  }

  /** The pair of arrays of bytes, each byte its own raw value, with declared lengths 2 and 1. */
  function MisdeclaredBytePair(): (a: RawArrayPair<(seq<Byte>, seq<Byte>), Byte, Byte>)
  {
    RawArrayPair(ByteCodec(), ByteCodec(), (2, 1), v => v, r => Some(r))
  }

  /**
   * When the declared lengths do not match the arrays, the split falls in
   * the wrong place: `([1], [2, 3])` encodes to `[1, 2, 3]` and decodes as
   * `([1, 2], [3])`.
   */
  lemma ArrayPairMisdeclaredSplit()
    ensures SerializeArrayPair(MisdeclaredBytePair(), ([1], [2, 3])) == [1, 2, 3]
    ensures DeserializeArrayPair(MisdeclaredBytePair(), [1, 2, 3]) == Returned(Some(([1, 2], [3])))
  {
    var a := MisdeclaredBytePair();
    var c := ByteCodec();
    assert a.raw1 == c && a.raw2 == c && a.size == (2, 1);
    assert c.serialize(1) == [1] && c.serialize(2) == [2] && c.serialize(3) == [3];
    assert Concatenated(c, [1]) == [1];
    assert Concatenated(c, [3]) == [3];
    assert Concatenated(c, [2, 3]) == [2, 3];
    assert a.rawValue(([1], [2, 3])) == ([1], [2, 3]);
    var data: seq<Byte> := [1, 2, 3];
    assert data[..2] == [1, 2] && data[2..3] == [3];
    assert c.deserializeAll([1, 2]) == [1, 2] && c.deserializeAll([3]) == [3];
    assert a.init(([1, 2], [3])) == Some(([1, 2], [3]));
  }

  /** As written: every buffer shorter than the two declared lengths raises instead of returning `nil`. */
  lemma ArrayPairShortBufferRaises<T, R1, R2>(a: RawArrayPair<T, R1, R2>, data: seq<Byte>)
    requires |data| < a.size.0 + a.size.1
    ensures DeserializeArrayPair(a, data) == RangeException
  {
  }

  /** The corrected array-pair decoder gives `nil` on a short buffer and otherwise agrees with the source's. */
  lemma ArrayPairOrNilAgrees<T, R1, R2>(a: RawArrayPair<T, R1, R2>, data: seq<Byte>)
    ensures |data| < a.size.0 + a.size.1 ==> DeserializeArrayPairOrNil(a, data) == None
    ensures |data| >= a.size.0 + a.size.1 ==>
      DeserializeArrayPair(a, data) == Returned(DeserializeArrayPairOrNil(a, data))
  {
  }
}
