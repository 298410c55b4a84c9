/**
 * The four raw-adapter capabilities: a domain value carried by one raw
 * primitive, an array of them, a pair of them, or a pair of arrays. Each
 * adapter has the projection `rawValue` and the failable initialiser
 * `init?(rawValue:)`, here a function into `Option`.
 */
module RawAdapters {
  import opened Wrappers
  import opened Primitive

  /** `RawDeserializable`: one raw value of type R. */
  datatype RawSingle<!T, !R> = RawSingle(
    raw: Codec<R>,
    rawValue: T -> R,
    init: R -> Option<T>)

  /** `RawArrayDeserializable`: an array of raw values of type R. */
  datatype RawArray<!T, !R> = RawArray(
    raw: Codec<R>,
    rawValue: T -> seq<R>,
    init: seq<R> -> Option<T>)

  /** `RawPairDeserializable`: a raw value of type R1 followed by one of type R2. */
  datatype RawPair<!T, !R1, !R2> = RawPair(
    raw1: Codec<R1>,
    raw2: Codec<R2>,
    rawValue: T -> (R1, R2),
    init: ((R1, R2)) -> Option<T>)

  /**
   * `RawArrayPairDeserializable`: an array of R1 followed by an array of R2;
   * `size` gives the byte lengths of the two parts, not element counts.
   */
  datatype RawArrayPair<!T, !R1, !R2> = RawArrayPair(
    raw1: Codec<R1>,
    raw2: Codec<R2>,
    size: (nat, nat),
    rawValue: T -> (seq<R1>, seq<R2>),
    init: ((seq<R1>, seq<R2>)) -> Option<T>)
}
