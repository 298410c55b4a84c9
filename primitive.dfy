/**
 * The `Deserializable` capability of a fixed-width primitive, together
 * with the `Serializable` encoders for one value and for an array of values.
 * The primitive conformances themselves are not part of this model: a
 * primitive is a record of its operations, and `Deserializable` states the
 * laws every conformance is assumed to keep.
 */
module Primitive {
  import opened Wrappers
  import opened ByteOrder

  /** A primitive type with its fixed `size` and its encoder and decoders. */
  datatype Codec<!T> = Codec(
    size: nat,
    // NSData.serialize(value): the value's bytes
    serialize: T -> seq<Byte>,
    // T.deserialize(data) -> T?
    deserialize: seq<Byte> -> Option<T>,
    // T.deserialize(data, start:) -> T?
    deserializeAt: (seq<Byte>, int) -> Option<T>,
    // T.deserialize(data) -> [T]
    deserializeAll: seq<Byte> -> seq<T>)

  /** Every encoding is exactly `size` bytes long. */
  ghost predicate FixedWidth<T(!new)>(c: Codec<T>)
  {
    c.size > 0 && forall v :: |c.serialize(v)| == c.size
  }

  /** The laws of a `Deserializable` primitive and its serializer. */
  ghost predicate Deserializable<T(!new)>(c: Codec<T>)
  {
    && FixedWidth(c)
    // decoding an encoding gives the value back
    && (forall v :: c.deserialize(c.serialize(v)) == Some(v))
    // decoding at an offset reads the `size` bytes there, and fails past the end
    && (forall data, start :: c.deserializeAt(data, start) ==
          if 0 <= start && start + c.size <= |data| then c.deserialize(data[start..start + c.size]) else None)
    // the array decoder yields one element per whole window; a partial window is dropped
    && (forall data :: |c.deserializeAll(data)| == |data| / c.size)
    && (forall data, i :: 0 <= i < |c.deserializeAll(data)| ==>
          c.deserializeAt(data, i * c.size) == Some(c.deserializeAll(data)[i]))
  }

  /** `NSData.serialize(values:)`: the encodings of the elements, one after another. */
  function Concatenated<T>(c: Codec<T>, values: seq<T>): (r: seq<Byte>)
  {
    if values == [] then [] else c.serialize(values[0]) + Concatenated(c, values[1..])
  }

  lemma WindowFits(i: nat, n: nat, s: nat)
    requires i < n
    ensures i * s + s <= n * s
  {
    assert i * s + s == (i + 1) * s;
  }

  /** The whole windows of `size` bytes in `n` bytes take at most `n` bytes. */
  lemma WholeWindowsFit(n: nat, s: nat)
    requires s > 0
    ensures n / s * s <= n
  {
  }

  lemma AtLeastOnce(k: int, s: nat)
    requires k >= 1
    ensures k * s >= s
  {
    assert k * s == (k - 1) * s + s;
  }

  lemma DivOfMultiple(n: nat, s: nat)
    requires s > 0
    ensures n * s / s == n
  {
    var q, r := n * s / s, n * s % s;
    assert (n - q) * s == r;
    if q < n {
      AtLeastOnce(n - q, s);
      assert false;
    } else if q > n {
      AtLeastOnce(q - n, s);
      assert false;
    }
  }

  lemma {:induction false} ConcatenatedLength<T(!new)>(c: Codec<T>, values: seq<T>)
    requires FixedWidth(c)
    ensures |Concatenated(c, values)| == |values| * c.size
  {
    if values != [] {
      ConcatenatedLength(c, values[1..]);
      assert |values| * c.size == c.size + (|values| - 1) * c.size;
    }
  }

  /** The i-th window of `size` bytes of an array encoding is the encoding of the i-th element. */
  lemma {:induction false} ConcatenatedWindow<T(!new)>(c: Codec<T>, values: seq<T>, i: nat)
    requires FixedWidth(c)
    requires i < |values|
    ensures i * c.size + c.size <= |Concatenated(c, values)|
    ensures Concatenated(c, values)[i * c.size .. i * c.size + c.size] == c.serialize(values[i])
  {
    ConcatenatedLength(c, values);
    WindowFits(i, |values|, c.size);
    var head := c.serialize(values[0]);
    var rest := Concatenated(c, values[1..]);
    if i == 0 {
      assert Concatenated(c, values)[..c.size] == head;
    } else {
      ConcatenatedWindow(c, values[1..], i - 1);
      var lo := (i - 1) * c.size;
      assert i * c.size == c.size + lo;
      assert (head + rest)[c.size + lo .. c.size + lo + c.size] == rest[lo .. lo + c.size];
    }
  }

  /** Array round trip: the array decoder recovers every element of an array encoding. */
  lemma DeserializeAllConcatenated<T(!new)>(c: Codec<T>, values: seq<T>)
    requires Deserializable(c)
    ensures c.deserializeAll(Concatenated(c, values)) == values
  {
    var data := Concatenated(c, values);
    ConcatenatedLength(c, values);
    DivOfMultiple(|values|, c.size);
    forall i | 0 <= i < |values|
      ensures c.deserializeAll(data)[i] == values[i]
    {
      ConcatenatedWindow(c, values, i);
      assert c.deserializeAt(data, i * c.size) == c.deserialize(c.serialize(values[i]));
    }
  }

  /** Trailing bytes that do not fill a whole window do not change what the array decoder yields. */
  lemma DeserializeAllIgnoresPartialWindow<T(!new)>(c: Codec<T>, data: seq<Byte>)
    requires Deserializable(c)
    ensures |data| / c.size * c.size <= |data|
    ensures c.deserializeAll(data) == c.deserializeAll(data[..|data| / c.size * c.size])
  {
    var n := |data| / c.size;
    var whole := data[..n * c.size];
    DivOfMultiple(n, c.size);
    forall i | 0 <= i < n
      ensures c.deserializeAll(data)[i] == c.deserializeAll(whole)[i]
    {
      WindowFits(i, n, c.size);
      var lo := i * c.size;
      assert whole[lo .. lo + c.size] == data[lo .. lo + c.size];
      assert c.deserializeAt(data, lo) == c.deserializeAt(whole, lo);
    }
  }

  /**
   * A one-byte primitive: every byte is a value, and its encoding is itself.
   * It shows that the `Deserializable` laws can be met.
   */
  function ByteCodec(): (c: Codec<Byte>)
    ensures Deserializable(c)
  {
    Codec(
      1,
      v => [v],
      b => if |b| == 1 then Some(b[0]) else None,
      (b, start) => if 0 <= start < |b| then Some(b[start]) else None,
      b => b)
  }
}
