/** Big-endian conversion of boxed unsigned integers (EndianConverter.cs).
    The source dispatches on the runtime type of an `object`; here that type is
    the constructor of `Boxed`. */
module EndianConverter {
  import opened Bytes

  /** A boxed integer tagged with its runtime type. `Int32` stands for every
      runtime type the converter does not handle; it is also what the literal
      `0` that the converter returns boxes to. */
  datatype Boxed =
    | UInt64(u64: uint64)
    | UInt32(u32: uint32)
    | UInt16(u16: uint16)
    | Byte(u8: uint8)
    | Int32(i32: int32)
  {
    /** Number of bytes written for this runtime type (0: not handled). */
    function Width(): nat
    {
      match this
      case UInt64(_) => 8
      case UInt32(_) => 4
      case UInt16(_) => 2
      case Byte(_) => 1
      case Int32(_) => 0
    }

    function Value(): int
    {
      match this
      case UInt64(v) => v
      case UInt32(v) => v
      case UInt16(v) => v
      case Byte(v) => v
      case Int32(v) => v
    }
  }

  /** `x >> (8 * k)` for a non-negative `x`. */
  function Shr8(x: nat, k: nat): nat
  {
    if k == 0 then x else Shr8(x / 0x100, k - 1)
  }

  /** `(byte)(x >> (8 * k))`: byte number `k` of `x`, counting from the least significant. */
  function ByteOf(x: nat, k: nat): uint8
  {
    Shr8(x, k) % 0x100
  }

  function Pow256(n: nat): (r: nat)
    ensures r > 0
  {
    if n == 0 then 1 else 0x100 * Pow256(n - 1)
  }

  /** Reference encoding: the `n` low-order bytes of `x`, most significant first. */
  function BigEndian(x: nat, n: nat): (r: seq<uint8>)
    ensures |r| == n
  {
    if n == 0 then [] else BigEndian(x / 0x100, n - 1) + [x % 0x100]
  }

  /** Reference decoding: the unsigned value of `s`, most significant byte first. */
  function BigEndianValue(s: seq<uint8>): nat
  {
    if s == [] then 0 else BigEndianValue(s[..|s| - 1]) * 0x100 + s[|s| - 1]
  }

  lemma {:induction false} BigEndianAt(x: nat, n: nat, j: nat)
    requires j < n
    ensures BigEndian(x, n)[j] == ByteOf(x, n - 1 - j)
  {
    if j < n - 1 {
      BigEndianAt(x / 0x100, n - 1, j);
    }
  }

  lemma {:induction false} BigEndianValueOf(x: nat, n: nat)
    requires x < Pow256(n)
    ensures BigEndianValue(BigEndian(x, n)) == x
  {
    if n > 0 {
      BigEndianValueOf(x / 0x100, n - 1);
      var s := BigEndian(x, n);
      assert s[..|s| - 1] == BigEndian(x / 0x100, n - 1);
    }
  }

  lemma {:induction false} BigEndianOfValue(s: seq<uint8>)
    ensures BigEndianValue(s) < Pow256(|s|)
    ensures BigEndian(BigEndianValue(s), |s|) == s
  {
    if s != [] {
      var init := s[..|s| - 1];
      BigEndianOfValue(init);
      assert s == init + [s[|s| - 1]];
    }
  }

  /** UIntergerToBytes: the big-endian bytes of a boxed UInt64, UInt32, UInt16
      or Byte; null for any other runtime type. */
  function UIntergerToBytes(x: Boxed): (r: Option<seq<uint8>>)
    ensures r.Some? <==> x.Width() > 0
    ensures r.Some? ==> |r.value| == x.Width()
  {
    match x
    case UInt64(i) =>
      Some([ByteOf(i, 7), ByteOf(i, 6), ByteOf(i, 5), ByteOf(i, 4),
            ByteOf(i, 3), ByteOf(i, 2), ByteOf(i, 1), ByteOf(i, 0)])
    case UInt32(i) => Some([ByteOf(i, 3), ByteOf(i, 2), ByteOf(i, 1), ByteOf(i, 0)])
    case UInt16(i) => Some([ByteOf(i, 1), ByteOf(i, 0)])
    case Byte(b) => Some([b])
    case Int32(_) => None
  }

  /** The bytes are those of the reference big-endian encoding, so they encode the value. */
  lemma UIntergerToBytesIsBigEndian(x: Boxed)
    requires x.Width() > 0
    ensures UIntergerToBytes(x) == Some(BigEndian(x.Value(), x.Width()))
    ensures BigEndianValue(UIntergerToBytes(x).value) == x.Value()
  {
    var n := x.Width();
    var r := UIntergerToBytes(x).value;
    var e := BigEndian(x.Value(), n);
    forall j | 0 <= j < n
      ensures r[j] == e[j]
    {
      BigEndianAt(x.Value(), n, j);
    }
    assert r == e;
    BigEndianValueOf(x.Value(), n);
  }

  /** The lengths BytesToUInteger reads: 1, 2, 4 and 8 bytes. */
  predicate Handled(length: int)
  {
    length == 1 || length == 2 || length == 4 || length == 8
  }

  /** BytesToUInteger: the big-endian value of `buffer[offset..offset+length)`
      boxed by width (the source ORs the shifted bytes, which is the same
      value); a boxed 0 for any other length, with nothing read. */
  function BytesToUInteger(buffer: seq<uint8>, offset: int, length: int): (r: Boxed)
    requires Handled(length) ==> 0 <= offset && offset + length <= |buffer|
    ensures length == 8 <==> r.UInt64?
    ensures length == 4 <==> r.UInt32?
    ensures length == 2 <==> r.UInt16?
    ensures length == 1 <==> r.Byte?
    ensures !Handled(length) ==> r == Int32(0)
  {
    if Handled(length) then
      var s := buffer[offset..offset + length];
      BigEndianOfValue(s);
      var v := BigEndianValue(s);
      if length == 8 then UInt64(v)
      else if length == 4 then UInt32(v)
      else if length == 2 then UInt16(v)
      else Byte(v)
    else
      Int32(0)
  }

  /** BytesToUInteger reads exactly the big-endian value of the requested slice. */
  lemma BytesToUIntegerValue(buffer: seq<uint8>, offset: int, length: int)
    requires Handled(length)
    requires 0 <= offset && offset + length <= |buffer|
    ensures BytesToUInteger(buffer, offset, length).Width() == length
    ensures BytesToUInteger(buffer, offset, length).Value() == BigEndianValue(buffer[offset..offset + length])
  {
  }

  /** Round trip: decoding the encoding of a handled value gives the value back,
      with the same runtime type. */
  lemma UIntergerRoundTrip(x: Boxed)
    requires x.Width() > 0
    ensures BytesToUInteger(UIntergerToBytes(x).value, 0, x.Width()) == x
  {
    UIntergerToBytesIsBigEndian(x);
    var s := UIntergerToBytes(x).value;
    assert s[0..x.Width()] == s;
  }

  /** SetUIntToBytes: writes the encoding of `x` into `buf` at `offset`
      (one byte per post-incremented `offset`); an unhandled type writes nothing. */
  method SetUIntToBytes(x: Boxed, buf: array<uint8>, offset: int)
    requires x.Width() > 0 ==> 0 <= offset && offset + x.Width() <= buf.Length
    modifies buf
    ensures x.Width() == 0 ==> buf[..] == old(buf[..])
    ensures x.Width() > 0 ==> buf[..] == Overlay(old(buf[..]), offset, UIntergerToBytes(x).value)
  {
    var o := offset;
    match x {
    case UInt64(i) =>
      buf[o] := ByteOf(i, 7); o := o + 1;
      buf[o] := ByteOf(i, 6); o := o + 1;
      buf[o] := ByteOf(i, 5); o := o + 1;
      buf[o] := ByteOf(i, 4); o := o + 1;
      buf[o] := ByteOf(i, 3); o := o + 1;
      buf[o] := ByteOf(i, 2); o := o + 1;
      buf[o] := ByteOf(i, 1); o := o + 1;
      buf[o] := ByteOf(i, 0); o := o + 1;
    case UInt32(i) =>
      buf[o] := ByteOf(i, 3); o := o + 1;
      buf[o] := ByteOf(i, 2); o := o + 1;
      buf[o] := ByteOf(i, 1); o := o + 1;
      buf[o] := ByteOf(i, 0); o := o + 1;
    case UInt16(i) =>
      buf[o] := ByteOf(i, 1); o := o + 1;
      buf[o] := ByteOf(i, 0); o := o + 1;
    case Byte(b) =>
      buf[o] := b; o := o + 1;
    case Int32(_) =>
    }
    if x.Width() > 0 {
      OverlayPointwise(old(buf[..]), offset, UIntergerToBytes(x).value, buf[..]);
    }
  }

  /** SetUIntToBytes writes `x` so that BytesToUInteger reads it back, and
      leaves every byte outside the written slot as it was. */
  lemma SetThenGet(x: Boxed, before: seq<uint8>, after: seq<uint8>, offset: nat)
    requires x.Width() > 0 && offset + x.Width() <= |before|
    requires after == Overlay(before, offset, UIntergerToBytes(x).value)
    ensures BytesToUInteger(after, offset, x.Width()) == x
    ensures forall k :: 0 <= k < |after| && !(offset <= k < offset + x.Width()) ==> after[k] == before[k]
  {
    UIntergerRoundTrip(x);
    var s := UIntergerToBytes(x).value;
    assert after[offset..offset + x.Width()] == s;
    assert s[0..x.Width()] == s;
  }

  function Reverse(s: seq<uint8>): (r: seq<uint8>)
    ensures |r| == |s|
    ensures forall k :: 0 <= k < |s| ==> r[k] == s[|s| - 1 - k]
  {
    if s == [] then [] else Reverse(s[1..]) + [s[0]]
  }

  /** The value whose `n` low-order bytes are those of `x` in reverse order:
      what the masked-and-shifted OR inside SwapEndian computes before its cast. */
  function Reversed(x: nat, n: nat): (r: nat)
    ensures r < Pow256(n)
  {
    BigEndianOfValue(Reverse(BigEndian(x, n)));
    BigEndianValue(Reverse(BigEndian(x, n)))
  }

  /** SwapEndian as written: the byte-reversed value is cast to `byte` before it
      is returned, so only its low byte survives; a UInt64 comes back boxed as
      UInt32, and any other runtime type gives a boxed 0. */
  function SwapEndian(x: Boxed): (r: Boxed)
    ensures x.UInt16? ==> r.UInt16?
    ensures x.UInt32? || x.UInt64? ==> r.UInt32?
  {
    match x
    case UInt16(i) => UInt16(Reversed(i, 2) % 0x100)
    case UInt32(i) => UInt32(Reversed(i, 4) % 0x100)
    case UInt64(i) => UInt32(Reversed(i, 8) % 0x100)
    case Byte(_) => Int32(0)
    case Int32(_) => Int32(0)
  }

  lemma LowByteOfValue(s: seq<uint8>)
    requires s != []
    ensures BigEndianValue(s) % 0x100 == s[|s| - 1]
  {
  }

  /** The low byte of the reversed value is the most significant byte of `x`. */
  lemma ReversedLowByte(x: nat, n: nat)
    requires n > 0
    ensures Reversed(x, n) % 0x100 == ByteOf(x, n - 1)
  {
    var r := Reverse(BigEndian(x, n));
    LowByteOfValue(r);
    BigEndianAt(x, n, 0);
  }

  /** What SwapEndian returns is the high byte of its argument, `(byte)(x >> 8)`,
      `(byte)(x >> 24)` or `(byte)(x >> 56)`, not the swapped value. */
  lemma SwapEndianKeepsHighByte(x: Boxed)
    ensures x.UInt16? ==> SwapEndian(x) == UInt16(ByteOf(x.u16, 1))
    ensures x.UInt32? ==> SwapEndian(x) == UInt32(ByteOf(x.u32, 3))
    ensures x.UInt64? ==> SwapEndian(x) == UInt32(ByteOf(x.u64, 7))
    ensures x.Byte? || x.Int32? ==> SwapEndian(x) == Int32(0)
  {
    if x.Width() > 1 {
      ReversedLowByte(x.Value(), x.Width());
    }
  }

  /** Applying SwapEndian twice does not give the argument back. */
  lemma SwapEndianNotInvolutive()
    ensures SwapEndian(SwapEndian(UInt16(0x1234))) == UInt16(0)
    ensures SwapEndian(SwapEndian(UInt16(0x1234))) != UInt16(0x1234)
  {
    SwapEndianKeepsHighByte(UInt16(0x1234));
    SwapEndianKeepsHighByte(UInt16(0x12));
  }

  /** The evidently intended SwapEndian: the byte-reversed value, boxed with the
      argument's own runtime type. */
  function SwapEndianIntended(x: Boxed): (r: Boxed)
    ensures x.Width() > 1 ==> r.Width() == x.Width()
  {
    match x
    case UInt16(i) => UInt16(Reversed(i, 2))
    case UInt32(i) => UInt32(Reversed(i, 4))
    case UInt64(i) => UInt64(Reversed(i, 8))
    case Byte(_) => Int32(0)
    case Int32(_) => Int32(0)
  }

  lemma {:induction false} ReverseReverse(s: seq<uint8>)
    ensures Reverse(Reverse(s)) == s
  {
  }

  /** Reversing the bytes twice gives the value back. */
  lemma ReversedInvolutive(x: nat, n: nat)
    requires x < Pow256(n)
    ensures Reversed(Reversed(x, n), n) == x
  {
    var b := BigEndian(x, n);
    var r := Reverse(b);
    BigEndianOfValue(r);
    ReverseReverse(b);
    BigEndianValueOf(x, n);
  }

  /** The intended swap is an involution on every handled width. */
  lemma SwapEndianIntendedInvolutive(x: Boxed)
    requires x.Width() > 1
    ensures SwapEndianIntended(SwapEndianIntended(x)) == x
  {
    match x
    case UInt16(i) => ReversedInvolutive(i, 2);
    case UInt32(i) => ReversedInvolutive(i, 4);
    case UInt64(i) => ReversedInvolutive(i, 8);
  }
}
