/**
 * The interpreter's type descriptors as the front end sees them (ObjectTypeInfo
 * with the isScalarType / isChar / isPointer / isArray / isStructure tests
 * folded into one closed variant), and the byte-to-integer reading the decoder
 * relies on.
 *
 * bytesToBigint belongs to the interpreter library and is not part of this
 * model: BytesToBigint states the behaviour the decoder assumes of it, an
 * unsigned or two's-complement reading in the chosen byte order.
 */
module CTypes {
  import opened JsText

  type Byte = b: int | 0 <= b < 256

  datatype Endianness = Little | Big

  /** What a pointer refers to, as far as alignment checking cares. */
  datatype Referent =
    | ObjectReferent(alignment: nat)
    | FunctionReferent
    | OtherReferent

  datatype ScalarKind =
    | IntegerKind
    | CharKind
    | PointerKind(referent: Referent)

  datatype Member = Member(name: string, relativeAddress: nat, ty: CType)

  /** An object type; `tag` is "" for an anonymous structure (the source's `t.tag || ""`). */
  datatype CType =
    | Scalar(size: nat, signed: bool, kind: ScalarKind)
    | Array(elementType: CType, length: nat, size: nat)
    | Struct(tag: string, members: seq<Member>, size: nat)
    | Unknown(size: nat)

  predicate IsPointer(t: CType)
  {
    t.Scalar? && t.kind.PointerKind?
  }

  /** Where the bytes after member k end: the next member's offset, or the structure's size after the last one. */
  function NextOffset(t: CType, k: nat): int
    requires t.Struct? && k < |t.members|
  {
    if k == |t.members| - 1 then t.size else t.members[k + 1].relativeAddress
  }

  /** Padding after member k, as both structure views compute it. */
  function PaddingAfter(t: CType, k: nat): int
    requires t.Struct? && k < |t.members|
  {
    NextOffset(t, k) - t.members[k].relativeAddress - t.members[k].ty.size
  }

  /**
   * The layout a C implementation gives its types: scalars take at least one
   * byte (a char exactly one), an array is its elements back to back, and a
   * structure's members start at offset 0 and follow each other in order
   * without overlapping, inside the structure's size.
   */
  predicate WellFormed(t: CType)
    decreases t
  {
    match t
    case Scalar(size, _, kind) => size > 0 && (kind.CharKind? ==> size == 1)
    case Array(et, length, size) => WellFormed(et) && size == length * et.size
    case Struct(_, members, size) =>
      && (|members| == 0 ==> size == 0)
      && (|members| > 0 ==> members[0].relativeAddress == 0)
      && (forall k {:trigger WellFormed(members[k].ty)} :: 0 <= k < |members| ==> WellFormed(members[k].ty) && PaddingAfter(t, k) >= 0)
    case Unknown(_) => false
  }

  // ---------------------------------------------------------------------------
  // bytesToBigint (stated)
  // ---------------------------------------------------------------------------

  /** Unsigned value of bytes, least significant first. */
  function UnsignedLE(bytes: seq<Byte>): nat
  {
    if bytes == [] then 0 else bytes[0] + 256 * UnsignedLE(bytes[1..])
  }

  /** The bytes in least-significant-first order. */
  function LittleEndianOrder(bytes: seq<Byte>, e: Endianness): seq<Byte>
  {
    if e == Little then bytes else Reverse(bytes)
  }

  /** The assumed behaviour of `bytesToBigint(bytes, signed, endianness)`. */
  function BytesToBigint(bytes: seq<Byte>, signed: bool, e: Endianness): int
  {
    var u := UnsignedLE(LittleEndianOrder(bytes, e));
    var span := Pow(256, |bytes|);
    if signed && 2 * u >= span then u - span else u
  }

  /** Writes the low |k| bytes of an integer (two's complement), in the given order. */
  function EncodeLE(u: nat, k: nat): seq<Byte>
  {
    if k == 0 then [] else [u % 256] + EncodeLE(u / 256, k - 1)
  }

  function IntegerToBytes(n: int, k: nat, e: Endianness): seq<Byte>
  {
    var le := EncodeLE(n % Pow(256, k), k);
    if e == Little then le else Reverse(le)
  }

  lemma {:induction false} UnsignedBound(bytes: seq<Byte>)
    ensures UnsignedLE(bytes) < Pow(256, |bytes|)
    decreases |bytes|
  {
    if bytes != [] {
      UnsignedBound(bytes[1..]);
      MulMono(UnsignedLE(bytes[1..]), Pow(256, |bytes| - 1) - 1, 256);
    }
  }

  lemma {:induction false} UnsignedZero(bytes: seq<Byte>)
    ensures UnsignedLE(bytes) == 0 <==> forall i :: 0 <= i < |bytes| ==> bytes[i] == 0
    decreases |bytes|
  {
    if bytes != [] {
      var rest := bytes[1..];
      UnsignedZero(rest);
      assert forall i :: 0 <= i < |rest| ==> rest[i] == bytes[i + 1];
      if forall i :: 0 <= i < |bytes| ==> bytes[i] == 0 {
        assert forall i :: 0 <= i < |rest| ==> rest[i] == 0;
      }
    }
  }

  lemma ReverseZero(bytes: seq<Byte>)
    ensures (forall i :: 0 <= i < |bytes| ==> bytes[i] == 0)
        <==> (forall i :: 0 <= i < |bytes| ==> Reverse(bytes)[i] == 0)
  {
    var r := Reverse(bytes);
    assert forall i :: 0 <= i < |bytes| ==> bytes[i] == r[|bytes| - 1 - i];
  }

  /** The reading is zero exactly when every byte is zero, signed or not, in either order. */
  lemma BigintZeroIffZeroBytes(bytes: seq<Byte>, signed: bool, e: Endianness)
    ensures BytesToBigint(bytes, signed, e) == 0 <==> forall i :: 0 <= i < |bytes| ==> bytes[i] == 0
  {
    var le := LittleEndianOrder(bytes, e);
    UnsignedBound(le);
    UnsignedZero(le);
    ReverseZero(bytes);
  }

  lemma {:induction false} EncodeUnsigned(bytes: seq<Byte>)
    ensures EncodeLE(UnsignedLE(bytes), |bytes|) == bytes
    decreases |bytes|
  {
    if bytes != [] {
      var rest := UnsignedLE(bytes[1..]);
      assert UnsignedLE(bytes) == rest * 256 + bytes[0];
      ModOfSum(rest, 256, bytes[0]);
      EncodeUnsigned(bytes[1..]);
      assert [bytes[0]] + bytes[1..] == bytes;
    }
  }

  lemma WrapBack(n: int, u: int, span: int)
    requires 0 <= u < span
    requires n == u || n == u - span
    ensures n % span == u
  {
  }

  /**
   * Writing the reading back with the same width and byte order gives the
   * original bytes: the reading loses nothing.
   */
  lemma BigintRoundTrip(bytes: seq<Byte>, signed: bool, e: Endianness)
    ensures IntegerToBytes(BytesToBigint(bytes, signed, e), |bytes|, e) == bytes
  {
    var le := LittleEndianOrder(bytes, e);
    UnsignedBound(le);
    WrapBack(BytesToBigint(bytes, signed, e), UnsignedLE(le), Pow(256, |bytes|));
    EncodeUnsigned(le);
    if e == Big {
      ReverseReverse(bytes);
    }
  }
}
