/**
 * The byte helpers of the serialisation layer: the host byte-order
 * conversions, the bytes of a value, and the value with its bytes reversed.
 */
module ByteOrder {

  /** One 8-bit unit of a byte buffer. */
  type Byte = bv8

  /** `toHostByteOrder`: the host order is the wire order, so nothing changes. */
  function ToHostByteOrder<T>(value: T): (r: T)
    ensures r == value
  {
    value
  }

  /** `fromHostByteOrder`: likewise the identity. */
  function FromHostByteOrder<T>(value: T): (r: T)
    ensures r == value
  {
    value
  }

  lemma HostByteOrderRoundTrip<T>(value: T)
    ensures FromHostByteOrder(ToHostByteOrder(value)) == value
    ensures ToHostByteOrder(FromHostByteOrder(value)) == value
  {
  }

  /** A byte sequence back to front (Swift's `reverse()` on `[UInt8]`). */
  function Reverse(s: seq<Byte>): (r: seq<Byte>)
  {
    if s == [] then [] else Reverse(s[1..]) + [s[0]]
  }

  lemma {:induction false} ReverseLength(s: seq<Byte>)
    ensures |Reverse(s)| == |s|
  {
    if s != [] {
      ReverseLength(s[1..]);
    }
  }

  lemma {:induction false} ReverseConcat(a: seq<Byte>, b: seq<Byte>)
    ensures Reverse(a + b) == Reverse(b) + Reverse(a)
  {
    if a == [] {
      assert a + b == b;
    } else {
      assert (a + b)[1..] == a[1..] + b;
      ReverseConcat(a[1..], b);
    }
  }

  /** Reversing twice gives back the original bytes. */
  lemma {:induction false} ReverseInvolutive(s: seq<Byte>)
    ensures Reverse(Reverse(s)) == s
  {
    if s != [] {
      ReverseConcat(Reverse(s[1..]), [s[0]]);
      ReverseInvolutive(s[1..]);
      assert Reverse([s[0]]) == [s[0]];
      assert [s[0]] + s[1..] == s;
    }
  }

  /**
   * How values of type T sit in memory: `size` is `sizeof(T)`, `bytesOf`
   * reads a value's storage, `fromBytes` reinterprets storage as a value.
   */
  datatype Layout<!T> = Layout(size: nat, bytesOf: T -> seq<Byte>, fromBytes: seq<Byte> -> T)

  /** Every value occupies exactly `sizeof(T)` bytes. */
  ghost predicate FixedSize<T(!new)>(l: Layout<T>)
  {
    forall v :: |l.bytesOf(v)| == l.size
  }

  /** Reading and reinterpreting storage are inverse to each other. */
  ghost predicate Bijective<T(!new)>(l: Layout<T>)
  {
    && FixedSize(l)
    && (forall v :: l.fromBytes(l.bytesOf(v)) == v)
    && (forall b :: |b| == l.size ==> l.bytesOf(l.fromBytes(b)) == b)
  }

  /** Foundation's `getBytes(_:length:)`: copies the first `length` bytes of `data` over `dest`. */
  method GetBytes(data: seq<Byte>, dest: array<Byte>, length: nat)
    requires length <= |data| && length <= dest.Length
    modifies dest
    ensures dest[..length] == data[..length]
    ensures dest[length..] == old(dest[length..])
  {
    var i := 0;
    while i < length
      invariant 0 <= i <= length
      invariant dest[..i] == data[..i]
      invariant dest[length..] == old(dest[length..])
    {
      dest[i] := data[i];
      i := i + 1;
    }
  }

  /** `byteArrayValue`: the `sizeof(T)` bytes of a value, copied into a zero-filled array. */
  method ByteArrayValue<T(!new)>(l: Layout<T>, value: T) returns (byteArray: seq<Byte>)
    requires FixedSize(l)
    ensures |byteArray| == l.size
    ensures byteArray == l.bytesOf(value)
  {
    var data := l.bytesOf(value);
    var buffer := new Byte[l.size](_ => 0);
    GetBytes(data, buffer, l.size);
    byteArray := buffer[..];
  }

  /** The value whose storage is the reverse of `value`'s storage. */
  function ByteSwapped<T>(l: Layout<T>, value: T): (r: T)
  {
    l.fromBytes(Reverse(l.bytesOf(value)))
  }

  /**
   * `reverseBytes`: starts from a copy of `value`, then overwrites its
   * storage with the reversed bytes.
   */
  method ReverseBytes<T(!new)>(l: Layout<T>, value: T) returns (result: T)
    requires Bijective(l)
    ensures l.bytesOf(result) == Reverse(l.bytesOf(value))
    ensures result == ByteSwapped(l, value)
  {
    var storage := new Byte[l.size];
    GetBytes(l.bytesOf(value), storage, l.size);
    var bytes := ByteArrayValue(l, value);
    var swappedBytes := Reverse(bytes);
    ReverseLength(bytes);
    GetBytes(swappedBytes, storage, l.size);
    assert storage[..] == swappedBytes;
    result := l.fromBytes(storage[..]);
  }

  /** Byte swapping is an involution, and it reverses the storage. */
  lemma ByteSwappedInvolutive<T(!new)>(l: Layout<T>, value: T)
    requires Bijective(l)
    ensures l.bytesOf(ByteSwapped(l, value)) == Reverse(l.bytesOf(value))
    ensures ByteSwapped(l, ByteSwapped(l, value)) == value
  {
    var bytes := l.bytesOf(value);
    ReverseLength(bytes);
    ReverseInvolutive(bytes);
  }
}
