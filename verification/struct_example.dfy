/**
 * A worked case of displayValue on a structure with padding: `struct pair
 * { char c; int x; }` with c at offset 0 and x at offset 4 in an 8-byte
 * object, read little-endian from 41 ?? ?? ?? 01 00 00 00, shows c as 'A'
 * and x as 1, with three bytes of padding after c (offsets 1 to 3), whatever
 * those padding bytes hold: displayValue never looks at them.
 */
module StructExample {
  import opened Wrappers
  import opened JsText
  import opened CTypes
  import opened HexFormat
  import opened ObjectView
  import opened ObjectLayout

  /** The char 0x41 reads as 'A', which encodeURI leaves alone. */
  lemma CharA()
    ensures DisplayValue([0x41], Scalar(1, true, CharKind), Little) == Success("'A'")
  {
    CharText([0x41], Scalar(1, true, CharKind), Little);
    assert IsUriUnescaped(0x41);
    assert (0x41 as char) == 'A';
  }

  /** A signed 4-byte integer 01 00 00 00, read little-endian, is 1. */
  lemma IntOne()
    ensures DisplayValue([1, 0, 0, 0], Scalar(4, true, IntegerKind), Little) == Success("1")
  {
    var bytes: seq<Byte> := [1, 0, 0, 0];
    ScalarDisplay(bytes, Scalar(4, true, IntegerKind), Little);
    assert BytesToBigint(bytes, true, Little) == 1;
    assert NumberToString(1, 10) == "1";
  }

  /** A two-member structure reads as tag{a, b} when its members read as a and b. */
  lemma TwoMembers(read: ScalarReader, bytes: seq<Byte>, t: CType, a: string, b: string)
    requires t.Struct? && |t.members| == 2 && |bytes| == t.size
    requires Display(read, MemberSlice(t, bytes, 0), t.members[0].ty) == Success(a)
    requires Display(read, MemberSlice(t, bytes, 1), t.members[1].ty) == Success(b)
    ensures Display(read, bytes, t) == Success(t.tag + "{" + a + ", " + b + "}")
  {
    assert MemberValues(read, bytes, t, 2) == Success([]);
    assert [b] + [] == [b];
    assert MemberValues(read, bytes, t, 1) == Success([b]);
    assert [a] + [b] == [a, b];
    assert MemberValues(read, bytes, t, 0) == Success([a, b]);
    assert Join([a, b], ", ") == a + ", " + b;
    assert t.tag + "{" + Join([a, b], ", ") + "}" == t.tag + "{" + a + ", " + b + "}";
  }

  /** The layout is well formed, c ends at offset 1, and three bytes of padding follow it. */
  lemma CharIntPadding()
    ensures var t := Struct("pair", [Member("c", 0, Scalar(1, true, CharKind)), Member("x", 4, Scalar(4, true, IntegerKind))], 8);
            && WellFormed(t)
            && t.members[0].relativeAddress + t.members[0].ty.size == 1
            && PaddingAfter(t, 0) == 3 && PaddingAfter(t, 1) == 0
  {
  }

  /** The whole structure reads as "pair{'A', 1}", whatever its padding bytes p1, p2, p3 hold. */
  lemma CharIntStruct(p1: Byte, p2: Byte, p3: Byte)
    ensures DisplayValue([0x41, p1, p2, p3, 1, 0, 0, 0],
                         Struct("pair", [Member("c", 0, Scalar(1, true, CharKind)), Member("x", 4, Scalar(4, true, IntegerKind))], 8),
                         Little)
         == Success("pair{'A', 1}")
  {
    var t := Struct("pair", [Member("c", 0, Scalar(1, true, CharKind)), Member("x", 4, Scalar(4, true, IntegerKind))], 8);
    var bytes: seq<Byte> := [0x41, p1, p2, p3, 1, 0, 0, 0];
    assert MemberSlice(t, bytes, 0) == [0x41];
    assert MemberSlice(t, bytes, 1) == [1, 0, 0, 0];
    CharA();
    IntOne();
    TwoMembers(ReadScalar(Little), bytes, t, "'A'", "1");
    assert "pair" + "{" + "'A'" + ", " + "1" + "}" == "pair{'A', 1}";
  }
}
