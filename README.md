# BlueCap SerDe in Dafny

This project models BlueCap's binary serialisation layer, `BlueCapKit/SerDe/SerDe.swift`.
The layer turns typed values into byte buffers, such as the payload of a Bluetooth characteristic, and turns buffers back into typed values.
Decoding can fail.

The model has five modules:

- `Wrappers` (`wrappers.dfy`): Swift's `Optional` as `Option`, with `FlatMap` for Swift's `flatmap`.
- `ByteOrder` (`byte_order.dfy`): the byte helpers.
  `toHostByteOrder` and `fromHostByteOrder` are identities.
  `byteArrayValue` and `reverseBytes` are methods that copy bytes into fresh storage with `getBytes`, as the source does.
  `byteArrayValue` starts from zero-filled storage.
  `reverseBytes` starts from a copy of the value's own bytes and overwrites them with the reversed bytes.
  A value's memory is a `Layout<T>`: its `sizeof(T)`, a reading of its bytes, and a reinterpretation of bytes as a value.
  `Bijective` states that reading and reinterpreting are inverses.
- `Primitive` (`primitive.dfy`): the `Deserializable` capability.
  A primitive is a `Codec<T>` record of its `size`, its encoder (`NSData.serialize`), and its three decoders: whole buffer, at an offset, and as an array.
  The predicate `Deserializable` states the laws every conformance is assumed to keep.
  `Concatenated` is the array encoder.
  `ByteCodec` is a one-byte primitive that meets the laws.
- `RawAdapters` (`raw_adapters.dfy`): the four raw-adapter capabilities Single, Array, Pair and Array-Pair.
  Each has a projection `rawValue` and a failable `init` into `Option`.
- `Serde` (`serde.dfy`): the façade, with one serialise/deserialise pair per capability, and the laws about them.

Foundation's `subdataWithRange` raises a range exception when a range runs past the buffer.
So the pair decoders return a `Decoded<T>`, which is either `Returned(Option<T>)` or `RangeException`.
That is the code as written.
`DeserializePairOrNil` and `DeserializeArrayPairOrNil` are corrected decoders that return `None` instead of raising (see "## Findings").

## Model

| member | source | states |
|---|---|---|
| `ByteOrder.ToHostByteOrder` | BlueCapKit/SerDe/SerDe.swift:12-14 | returns its argument unchanged |
| `ByteOrder.FromHostByteOrder` | BlueCapKit/SerDe/SerDe.swift:16-18 | returns its argument unchanged |
| `ByteOrder.HostByteOrderRoundTrip` | BlueCapKit/SerDe/SerDe.swift:12-18 | converting to and then from host order is the identity, in either order |
| `ByteOrder.GetBytes` | BlueCapKit/SerDe/SerDe.swift:24 | `getBytes(_:length:)` puts the first `length` bytes of the data into the destination and leaves the rest of it unchanged |
| `ByteOrder.ByteArrayValue` | BlueCapKit/SerDe/SerDe.swift:20-26 | the result has exactly `sizeof(T)` bytes, and they are the value's memory bytes |
| `ByteOrder.ReverseInvolutive` | BlueCapKit/SerDe/SerDe.swift:30 | reversing a byte array twice gives back the same array |
| `ByteOrder.ReverseBytes` | BlueCapKit/SerDe/SerDe.swift:28-33 | the result's memory bytes are the reverse of the argument's, so the result is `ByteSwapped` of the argument |
| `ByteOrder.ByteSwappedInvolutive` | BlueCapKit/SerDe/SerDe.swift:28-33 | a byte-swapped value's bytes are the reversed bytes, and swapping twice gives back the original value |
| `Primitive.ConcatenatedLength` | BlueCapKit/SerDe/SerDe.swift:46 | an array encoding has `size` bytes per element |
| `Primitive.ConcatenatedWindow` | BlueCapKit/SerDe/SerDe.swift:46 | byte window `i` of an array encoding is the encoding of element `i` |
| `Primitive.DeserializeAllConcatenated` | BlueCapKit/SerDe/SerDe.swift:39 | decoding the encoding of an array as an array gives back every element, in order |
| `Primitive.DeserializeAllIgnoresPartialWindow` | BlueCapKit/SerDe/SerDe.swift:39 | trailing bytes that do not fill a whole window do not change the decoded array |
| `Primitive.ByteCodec` | BlueCapKit/SerDe/SerDe.swift:35-41 | a one-byte primitive satisfies all the `Deserializable` laws, so the laws can be met |
| `Serde.PrimitiveRoundTrip` | BlueCapKit/SerDe/SerDe.swift:112-118 | a primitive encodes to `size` bytes and decodes back to itself |
| `Serde.PrimitivesRoundTrip` | BlueCapKit/SerDe/SerDe.swift:120-122 | an array of primitives encodes to `size` bytes per element, and the array decoder gives it back |
| `Serde.SingleDecodeCases` | BlueCapKit/SerDe/SerDe.swift:124-126 | Single decoding returns failure exactly when the raw decode fails or `init?(rawValue:)` rejects the raw value; otherwise it returns `init(raw)` |
| `Serde.SingleRejectsInvalidRaw` | BlueCapKit/SerDe/SerDe.swift:124-126 | a raw value that decodes but that `init?` rejects still gives failure |
| `Serde.SingleRoundTrip` | BlueCapKit/SerDe/SerDe.swift:124-130 | if the raw primitive is lawful and `init(rawValue(v)) == v`, then the encoding of `v` is `size` bytes long and decodes to `v` |
| `Serde.ArrayDecodeInput` | BlueCapKit/SerDe/SerDe.swift:132-134 | `init?` gets the decoded element array with one element per whole window, each the decoding of its window; only `init?` can make the result fail |
| `Serde.ArrayRoundTrip` | BlueCapKit/SerDe/SerDe.swift:132-138 | if `init(rawValue(v)) == v`, then the encoding of `v` has `size` bytes per raw element and decodes to `v` |
| `Serde.PairDecodeCases` | BlueCapKit/SerDe/SerDe.swift:140-148 | on a buffer that covers both slices, Pair decoding returns a result that fails exactly when the `[0, size1)` decode, the `[size1, size1+size2)` decode or `init?` fails; otherwise it is `init((r1, r2))` |
| `Serde.PairIgnoresTrailing` | BlueCapKit/SerDe/SerDe.swift:140-148 | bytes at or after `size1+size2` do not change the result |
| `Serde.PairLayoutTwoFour` | BlueCapKit/SerDe/SerDe.swift:140-142 | with raw sizes 2 and 4, a 6-byte buffer splits into bytes 0..2 and 2..6, and a 5-byte buffer raises |
| `Serde.PairRoundTrip` | BlueCapKit/SerDe/SerDe.swift:140-152 | the encoding `serialize1(r1) ++ serialize2(r2)` is `size1+size2` bytes long and decodes to `v` when `init(rawValue(v)) == v` |
| `Serde.PairShortBufferRaises` | BlueCapKit/SerDe/SerDe.swift:141-142 | every buffer shorter than `size1+size2` raises a range exception |
| `Serde.PairOrNilAgrees` | BlueCapKit/SerDe/SerDe.swift:140-148 | the corrected decoder returns `nil` on a short buffer and otherwise returns exactly what the source's decoder returns |
| `Serde.ArrayPairSerializeLength` | BlueCapKit/SerDe/SerDe.swift:161-163 | an Array-Pair encoding is as long as the encodings of its two arrays together |
| `Serde.ArrayPairElementCounts` | BlueCapKit/SerDe/SerDe.swift:154-158 | the buffer is split at the declared byte lengths `(s1, s2)`; `init?` gets `s1 / size1` and `s2 / size2` elements, whatever the data; the declared lengths are never checked |
| `Serde.ArrayPairIgnoresTrailing` | BlueCapKit/SerDe/SerDe.swift:154-159 | bytes at or after `s1+s2` do not change the result |
| `Serde.ArrayPairRoundTrip` | BlueCapKit/SerDe/SerDe.swift:154-163 | if the two encoded arrays take exactly `s1` and `s2` bytes and `init(rawValue(v)) == v`, the encoding decodes to `v` |
| `Serde.ArrayPairSplitRecoversArrays` | BlueCapKit/SerDe/SerDe.swift:154-163 | when each array's encoding fills its declared length, splitting their concatenation at the declared lengths gives back both arrays |
| `Serde.ArrayPairSplitNeedsDeclaredLengths` | BlueCapKit/SerDe/SerDe.swift:154-163 | when the split at the declared lengths gives back both arrays, each array's encoding fills its declared length exactly |
| `Serde.ArrayPairSplitRecoversArraysIff` | BlueCapKit/SerDe/SerDe.swift:154-163 | for all arrays `r1`, `r2`: splitting `serialize(r1) ++ serialize(r2)` at the declared lengths gives back `r1` and `r2` if and only if `|r1| * size1 == s1` and `|r2| * size2 == s2` |
| `Serde.ArrayPairMisdeclaredSplit` | BlueCapKit/SerDe/SerDe.swift:154-163 | an example of a mismatch: with declared lengths (2, 1), the value `([1], [2, 3])` encodes to `[1, 2, 3]` and decodes as `([1, 2], [3])` |
| `Serde.ArrayPairShortBufferRaises` | BlueCapKit/SerDe/SerDe.swift:156-157 | every buffer shorter than `s1+s2` raises a range exception |
| `Serde.ArrayPairOrNilAgrees` | BlueCapKit/SerDe/SerDe.swift:154-159 | the corrected decoder returns `nil` on a short buffer and otherwise returns exactly what the source's decoder returns |

## Left out

- String serialisation (`Serde.serialize(value:encoding:)` and `deserialize(data:encoding:)`, and `Serializable.fromString`): they call into Foundation's text-encoding machinery, which the model cannot see.
- `init?(stringValue:)` of `Deserializable`: parsing text into a primitive is done by the primitive conformances, which are not part of this model.
- `CharacteristicConfigurable`, `ServiceConfigurable` and `StringDeserializable`, and every adapter's `uuid`: these are metadata tied to CoreBluetooth types, and no behaviour of them is shown.
- The primitive conformances (`UInt8.deserialize` and the others) and `NSData.serialize` are not part of this model. Their behaviour is assumed as the laws in `Primitive.Deserializable`:
  - `size > 0`;
  - every encoding has `size` bytes;
  - decoding an encoding gives the value back;
  - decoding at an offset reads the `size` bytes there, and fails when they run past the end;
  - the array decoder yields `floor(length / size)` elements, each the decoding of its window, so a partial window at the end is dropped;
  - every buffer of exactly `size` bytes decodes to a value: this follows from the array-decoder law applied to one window. So in the model, a raw decode inside Single or Pair can fail only on a buffer of the wrong length. Integer primitives meet this. A primitive with invalid bit patterns would not.
- `Primitive.Deserializable` does not say what the whole-buffer decoder does on a buffer whose length is not `size`. So the model claims nothing about a Single decode of a too-short or too-long buffer. The Pair decoders always pass it exactly `size` bytes.
- Raw memory reinterpretation (lines 22-24 and 30-31, `NSData(bytes:length:)`, `getBytes`, `sizeof`): modelled as the abstract `Layout` bijection. The exact memory layout of a type, including floating point, is not modelled.
- Swift's fixed-width `Int`: sizes are unbounded naturals, so an overflow of `size1 + size2` is not modelled.
- `RawDeserializable` has its `rawValue` requirement commented out (line 74), but `serialize` at line 129 uses `value.rawValue`. The model gives the Single adapter a `rawValue` projection.

## Findings

| source | as written | input that shows it | evidently intended | confidence | as-written member | corrected member |
|---|---|---|---|---|---|---|
| BlueCapKit/SerDe/SerDe.swift:140-148 | the Pair decoder slices the buffer with `subdataWithRange` without checking its length, so a short buffer raises a Foundation range exception | raw sizes 2 and 4 with a 5-byte buffer | a short or malformed buffer decodes to `nil` | not executed; medium | `Serde.PairShortBufferRaises` | `Serde.PairOrNilAgrees` |
| BlueCapKit/SerDe/SerDe.swift:154-159 | the Array-Pair decoder slices at the declared lengths without checking the buffer's length, so a buffer shorter than `s1+s2` raises | declared lengths (2, 1) with a 2-byte buffer | a short buffer decodes to `nil` | not executed; medium | `Serde.ArrayPairShortBufferRaises` | `Serde.ArrayPairOrNilAgrees` |
