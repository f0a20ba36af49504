/**
 * What src/utils/object.tsx promises about its views: when displayValue
 * succeeds and what its text is for each kind of type, how structure padding
 * adds up, and that the inline view gives every byte of an object exactly one
 * cell, in address order.
 */
module ObjectLayout {
  import opened Wrappers
  import opened JsText
  import opened CTypes
  import opened HexFormat
  import opened ObjectView

  // ---------------------------------------------------------------------------
  // Reference definitions
  // ---------------------------------------------------------------------------

  /** The first failure among results j.., or all their values in order. */
  function CollectFrom(rs: seq<Result<string, DecodeError>>, j: nat): Result<seq<string>, DecodeError>
    decreases |rs| - j
  {
    if j >= |rs| then Success([])
    else if rs[j].Failure? then Failure(rs[j].error)
    else Prepend([rs[j].value], CollectFrom(rs, j + 1))
  }

  /** Element k of an array decoded on its own, from bytes [k*es, (k+1)*es). */
  function ElementResult(read: ScalarReader, bytes: seq<Byte>, t: CType, k: nat): Result<string, DecodeError>
    requires t.Array?
  {
    Display(read, ElementBytes(t, bytes, k), t.elementType)
  }

  function ElementResults(read: ScalarReader, bytes: seq<Byte>, t: CType): (rs: seq<Result<string, DecodeError>>)
    requires t.Array?
    ensures |rs| == t.length
  {
    seq(t.length, k requires 0 <= k => ElementResult(read, bytes, t, k))
  }

  /** Member k of a structure decoded on its own, from its own bytes. */
  function MemberResults(read: ScalarReader, bytes: seq<Byte>, t: CType): (rs: seq<Result<string, DecodeError>>)
    requires t.Struct?
    ensures |rs| == |t.members|
  {
    seq(|t.members|, k requires 0 <= k < |t.members| => Display(read, MemberSlice(t, bytes, k), t.members[k].ty))
  }

  /** The bytes taken by elements i.. of an array. */
  function ElementsSpan(t: CType, i: nat): nat
    requires t.Array? && i <= t.length
    decreases t.length - i
  {
    if i == t.length then 0 else t.elementType.size + ElementsSpan(t, i + 1)
  }

  /** The bytes taken by members k.. of a structure. */
  function MemberBytes(t: CType, k: nat): int
    requires t.Struct? && k <= |t.members|
    decreases |t.members| - k
  {
    if k == |t.members| then 0 else t.members[k].ty.size + MemberBytes(t, k + 1)
  }

  /** The padding after members k.. of a structure. */
  function PaddingBytes(t: CType, k: nat): int
    requires t.Struct? && k <= |t.members|
    decreases |t.members| - k
  {
    if k == |t.members| then 0 else PaddingAfter(t, k) + PaddingBytes(t, k + 1)
  }

  /** Where member k starts, or the structure's end for k past the last member. */
  function Start(t: CType, k: nat): int
    requires t.Struct? && k <= |t.members|
  {
    if k < |t.members| then t.members[k].relativeAddress else t.size
  }

  predicate LabelsUnder(cells: seq<Cell>, prefix: string)
  {
    forall i :: 0 <= i < |cells| && cells[i].Label? ==> prefix <= cells[i].text
  }

  function MemberRowCount(rows: seq<Row>): nat
  {
    if rows == [] then 0 else (if rows[0].MemberRow? then 1 else 0) + MemberRowCount(rows[1..])
  }

  /** The number of question marks the padding rows show. */
  function PaddingMarks(rows: seq<Row>): nat
  {
    if rows == [] then 0 else (if rows[0].PaddingRow? then rows[0].marks else 0) + PaddingMarks(rows[1..])
  }

  // ---------------------------------------------------------------------------
  // Collect
  // ---------------------------------------------------------------------------

  /**
   * Collecting from j on succeeds exactly when every result from j on does,
   * and then lists their values in order; otherwise it reports the first
   * failure.
   */
  lemma {:induction false} CollectSpec(rs: seq<Result<string, DecodeError>>, j: nat)
    requires j <= |rs|
    ensures CollectFrom(rs, j).Success? <==> forall i :: j <= i < |rs| ==> rs[i].Success?
    ensures CollectFrom(rs, j).Success? ==>
              && |CollectFrom(rs, j).value| == |rs| - j
              && forall i :: j <= i < |rs| ==> CollectFrom(rs, j).value[i - j] == rs[i].value
    ensures CollectFrom(rs, j).Failure? ==>
              exists i :: j <= i < |rs| && rs[i].Failure? && CollectFrom(rs, j).error == rs[i].error
                          && forall k :: j <= k < i ==> rs[k].Success?
    decreases |rs| - j
  {
    if j < |rs| {
      CollectSpec(rs, j + 1);
      if rs[j].Success? && CollectFrom(rs, j + 1).Success? {
        var vs := CollectFrom(rs, j + 1).value;
        assert CollectFrom(rs, j).value == [rs[j].value] + vs;
      }
    }
  }

  // ---------------------------------------------------------------------------
  // displayValue
  // ---------------------------------------------------------------------------

  /** A byte list of the wrong length is refused before anything is decoded. */
  lemma DisplayChecksLength(read: ScalarReader, bytes: seq<Byte>, t: CType)
    requires |bytes| != t.size
    ensures Display(read, bytes, t) == Failure(SizeMismatch)
  {
  }

  lemma {:induction false} OffsetIsProduct(t: CType, i: nat)
    requires t.Array?
    ensures ElementOffset(t, i) == i * t.elementType.size
    decreases i
  {
    if i > 0 {
      OffsetIsProduct(t, i - 1);
      ShiftByOne(i, t.elementType.size);
    }
  }

  lemma {:induction false} SpanIsProduct(t: CType, i: nat)
    requires t.Array? && i <= t.length
    ensures ElementsSpan(t, i) == (t.length - i) * t.elementType.size
    decreases t.length - i
  {
    if i < t.length {
      SpanIsProduct(t, i + 1);
      ShiftByOne(t.length - i, t.elementType.size);
      assert t.length - i - 1 == t.length - (i + 1);
    }
  }

  /** In an array of n elements of w bytes, element j ends inside it and the next one starts w bytes later. */
  lemma OffsetStep(t: CType, j: nat)
    requires t.Array? && t.size == t.length * t.elementType.size && j < t.length
    ensures ElementOffset(t, j + 1) == ElementOffset(t, j) + t.elementType.size <= t.size
  {
    OffsetIsProduct(t, j + 1);
    MulMono(j + 1, t.length, t.elementType.size);
  }

  /** The array's elements end exactly at its size. */
  lemma OffsetAtEnd(t: CType)
    requires t.Array? && t.size == t.length * t.elementType.size
    ensures ElementOffset(t, t.length) == t.size
    ensures ElementsSpan(t, 0) == t.size
  {
    OffsetIsProduct(t, t.length);
    SpanIsProduct(t, 0);
  }

  /** CollectFrom's turn at j: stop with rs[j]'s error or put its value in front of the rest. */
  lemma CollectTurn(rs: seq<Result<string, DecodeError>>, j: nat)
    requires j < |rs|
    ensures CollectFrom(rs, j) == Turn(rs[j], CollectFrom(rs, j + 1))
  {
  }

  /** The array loop's turn at element j decodes ElementResult(j) and continues at element j+1. */
  lemma ElementValuesTurn(read: ScalarReader, bytes: seq<Byte>, t: CType, j: nat)
    requires t.Array? && t.elementType.size > 0 && t.size == t.length * t.elementType.size
    requires j < t.length
    ensures ElementValues(read, bytes, t, ElementOffset(t, j))
         == Turn(ElementResult(read, bytes, t, j), ElementValues(read, bytes, t, ElementOffset(t, j + 1)))
  {
    OffsetStep(t, j);
  }

  lemma ElementsFromStep(read: ScalarReader, bytes: seq<Byte>, t: CType, j: nat)
    requires t.Array? && t.elementType.size > 0 && t.size == t.length * t.elementType.size
    requires j < t.length
    requires ElementValues(read, bytes, t, ElementOffset(t, j + 1)) == CollectFrom(ElementResults(read, bytes, t), j + 1)
    ensures ElementValues(read, bytes, t, ElementOffset(t, j)) == CollectFrom(ElementResults(read, bytes, t), j)
  {
    ElementValuesTurn(read, bytes, t, j);
    CollectTurn(ElementResults(read, bytes, t), j);
    assert ElementResults(read, bytes, t)[j] == ElementResult(read, bytes, t, j);
  }

  lemma {:induction false} ElementsFrom(read: ScalarReader, bytes: seq<Byte>, t: CType, j: nat)
    requires t.Array? && t.elementType.size > 0 && t.size == t.length * t.elementType.size
    requires j <= t.length
    ensures ElementValues(read, bytes, t, ElementOffset(t, j)) == CollectFrom(ElementResults(read, bytes, t), j)
    decreases t.length - j
  {
    if j < t.length {
      ElementsFrom(read, bytes, t, j + 1);
      ElementsFromStep(read, bytes, t, j);
    } else {
      OffsetAtEnd(t);
    }
  }

  /**
   * An array whose size is its length times a positive element size reads as
   * "[" + the elements' texts, comma-separated, + "]", or fails with the first
   * element's error; ElementAt says which bytes element k is read from.
   */
  lemma ArrayText(read: ScalarReader, bytes: seq<Byte>, t: CType)
    requires t.Array? && t.elementType.size > 0 && t.size == t.length * t.elementType.size
    requires |bytes| == t.size
    ensures Display(read, bytes, t) == Bracketed("[", CollectFrom(ElementResults(read, bytes, t), 0), "]")
  {
    ElementsFrom(read, bytes, t, 0);
    assert ElementOffset(t, 0) == 0;
  }

  /** There are exactly `length` elements, and element k is decoded from bytes [k*es, (k+1)*es). */
  lemma ElementAt(read: ScalarReader, bytes: seq<Byte>, t: CType, k: nat)
    requires t.Array? && t.elementType.size > 0 && t.size == t.length * t.elementType.size
    requires |bytes| == t.size && k < t.length
    ensures |ElementResults(read, bytes, t)| == t.length
    ensures ElementOffset(t, k + 1) <= |bytes|
    ensures ElementBytes(t, bytes, k) == bytes[ElementOffset(t, k)..ElementOffset(t, k + 1)]
    ensures |ElementBytes(t, bytes, k)| == t.elementType.size
    ensures ElementResults(read, bytes, t)[k] == Display(read, ElementBytes(t, bytes, k), t.elementType)
  {
    OffsetStep(t, k);
    assert ElementResults(read, bytes, t)[k] == ElementResult(read, bytes, t, k);
  }

  /** The structure loop's turn at member k decodes member k's bytes and continues at member k+1. */
  lemma MemberValuesTurn(read: ScalarReader, bytes: seq<Byte>, t: CType, k: nat)
    requires t.Struct? && k < |t.members|
    ensures MemberValues(read, bytes, t, k)
         == Turn(Display(read, MemberSlice(t, bytes, k), t.members[k].ty), MemberValues(read, bytes, t, k + 1))
  {
  }

  lemma MembersFromStep(read: ScalarReader, bytes: seq<Byte>, t: CType, k: nat)
    requires t.Struct? && k < |t.members|
    requires MemberValues(read, bytes, t, k + 1) == CollectFrom(MemberResults(read, bytes, t), k + 1)
    ensures MemberValues(read, bytes, t, k) == CollectFrom(MemberResults(read, bytes, t), k)
  {
    MemberValuesTurn(read, bytes, t, k);
    CollectTurn(MemberResults(read, bytes, t), k);
  }

  lemma {:induction false} MembersFrom(read: ScalarReader, bytes: seq<Byte>, t: CType, k: nat)
    requires t.Struct? && k <= |t.members|
    ensures MemberValues(read, bytes, t, k) == CollectFrom(MemberResults(read, bytes, t), k)
    decreases |t.members| - k
  {
    if k < |t.members| {
      MembersFrom(read, bytes, t, k + 1);
      MembersFromStep(read, bytes, t, k);
    }
  }

  /** In a well-formed structure each member's bytes lie inside the structure, in member order. */
  lemma {:induction false} NextOffsetBound(t: CType, k: nat)
    requires t.Struct? && WellFormed(t) && k < |t.members|
    ensures t.members[k].relativeAddress + t.members[k].ty.size <= NextOffset(t, k) <= t.size
    decreases |t.members| - k
  {
    assert WellFormed(t.members[k].ty) && PaddingAfter(t, k) >= 0;
    if k + 1 < |t.members| {
      NextOffsetBound(t, k + 1);
    }
  }

  /**
   * A structure reads as tag + "{" + one entry per member, in declaration
   * order, + "}", or fails with the first member's error.
   */
  lemma StructText(read: ScalarReader, bytes: seq<Byte>, t: CType)
    requires t.Struct? && |bytes| == t.size
    ensures |MemberResults(read, bytes, t)| == |t.members|
    ensures Display(read, bytes, t) == Bracketed(t.tag + "{", CollectFrom(MemberResults(read, bytes, t), 0), "}")
  {
    MembersFrom(read, bytes, t, 0);
  }

  /** In a well-formed structure, member k's entry is decoded from bytes [rel_k, rel_k + size_k). */
  lemma MemberAt(read: ScalarReader, bytes: seq<Byte>, t: CType, k: nat)
    requires t.Struct? && WellFormed(t) && |bytes| == t.size && k < |t.members|
    ensures t.members[k].relativeAddress + t.members[k].ty.size <= |bytes|
    ensures MemberResults(read, bytes, t)[k]
         == Display(read, bytes[t.members[k].relativeAddress..t.members[k].relativeAddress + t.members[k].ty.size],
                    t.members[k].ty)
  {
    NextOffsetBound(t, k);
  }

  /** A scalar of the right length reads its bytes as an integer in the given order and formats it by kind. */
  lemma ScalarDisplay(bytes: seq<Byte>, t: CType, e: Endianness)
    requires t.Scalar? && |bytes| == t.size
    ensures DisplayValue(bytes, t, e) == ScalarText(BytesToBigint(bytes, t.signed, e), t.kind)
  {
  }

  /** A one-byte char names code unit b, or b + 0xFF00 when it is signed and negative (fromCharCode wraps). */
  lemma CharCodeUnit(bytes: seq<Byte>, signed: bool, e: Endianness)
    requires |bytes| == 1
    ensures CodeUnit(BytesToBigint(bytes, signed, e))
         == if signed && bytes[0] >= 128 then bytes[0] as int + 0xFF00 else bytes[0]
  {
    assert LittleEndianOrder(bytes, e) == bytes;
    assert UnsignedLE(bytes) == bytes[0] + 256 * UnsignedLE([]);
    assert Pow(256, 1) == 256;
  }

  /**
   * A one-byte char reads as a quoted string: the character itself when
   * encodeURI leaves it alone, otherwise its %XX escapes (three characters per
   * UTF-8 byte). It never hits encodeURI's error, which needs a surrogate.
   */
  lemma CharText(bytes: seq<Byte>, t: CType, e: Endianness)
    requires t.Scalar? && t.kind.CharKind? && t.size == 1 && |bytes| == 1
    ensures var u := if t.signed && bytes[0] >= 128 then bytes[0] as int + 0xFF00 else bytes[0];
            var r := DisplayValue(bytes, t, e);
            && r.Success?
            && |r.value| >= 3 && r.value[0] == '\'' && r.value[|r.value| - 1] == '\''
            && (IsUriUnescaped(u) ==> r.value == ['\'', u as char, '\''])
            && (!IsUriUnescaped(u) ==> r.value[1] == '%' && |r.value| == 2 + 3 * |Utf8(u)|)
  {
    ScalarDisplay(bytes, t, e);
    CharCodeUnit(bytes, t.signed, e);
    var u := if t.signed && bytes[0] >= 128 then bytes[0] as int + 0xFF00 else bytes[0];
    if !IsUriUnescaped(u) {
      DisplayBytesLength(Utf8(u), Hexadecimal, "%");
    }
  }

  /** A pointer reads "NULL" exactly when all its bytes are zero; a positive one reads as "0x" + eight hex digits that parse back to it modulo 16^8. */
  lemma PointerText(bytes: seq<Byte>, t: CType, e: Endianness)
    requires IsPointer(t) && |bytes| == t.size
    ensures var n := BytesToBigint(bytes, t.signed, e);
            var r := DisplayValue(bytes, t, e);
            && r.Success?
            && (r.value == "NULL" <==> forall i :: 0 <= i < |bytes| ==> bytes[i] == 0)
            && (n > 0 ==>
                  && |r.value| == 10 && r.value[..2] == "0x"
                  && AllUpperDigits(r.value[2..], 16)
                  && ParseIntHex(r.value) == Some(n % ADDRESS_SPAN))
  {
    ScalarDisplay(bytes, t, e);
    var n := BytesToBigint(bytes, t.signed, e);
    BigintZeroIffZeroBytes(bytes, t.signed, e);
    if n != 0 {
      var h := DecimalAddressToHex(n);
      assert ("0x" + h)[0] != "NULL"[0];
      if n > 0 {
        AddressHexShape(n);
        ParseAddressText(n);
        assert ("0x" + h)[2..] == h;
      }
    }
  }

  /** The decimal digits of a non-negative integer read back as it. */
  lemma DecimalDigits(n: nat)
    ensures AllDigits(RadixDigits(n, 10), 10) && ValueOf(RadixDigits(n, 10), 10) == n
  {
    var d := RadixDigits(n, 10);
    UpperRadixDigits(n, 10);
    forall i | 0 <= i < |d|
      ensures UpperChar(d[i]) == d[i]
    {
      assert IsDigit(ToUpperCase(d)[i], 10);
    }
    assert ToUpperCase(d) == d;
  }

  /** Any other scalar reads as its decimal value, with a minus sign when negative; an unsigned one is never negative. */
  lemma IntegerText(bytes: seq<Byte>, t: CType, e: Endianness)
    requires t.Scalar? && t.kind.IntegerKind? && |bytes| == t.size
    ensures var n := BytesToBigint(bytes, t.signed, e);
            var r := DisplayValue(bytes, t, e);
            && r.Success?
            && (!t.signed ==> n >= 0)
            && (n >= 0 ==> AllDigits(r.value, 10) && ValueOf(r.value, 10) == n)
            && (n < 0 ==> r.value[0] == '-' && AllDigits(r.value[1..], 10) && ValueOf(r.value[1..], 10) == -n)
  {
    ScalarDisplay(bytes, t, e);
    var n := BytesToBigint(bytes, t.signed, e);
    if n >= 0 {
      DecimalDigits(n);
    } else {
      DecimalDigits(-n);
      assert DisplayValue(bytes, t, e).value[1..] == RadixDigits(-n, 10);
    }
  }

  lemma ArrayFromElements(read: ScalarReader, bytes: seq<Byte>, t: CType)
    requires t.Array? && t.elementType.size > 0 && t.size == t.length * t.elementType.size && |bytes| == t.size
    requires forall k :: 0 <= k < t.length ==> ElementResults(read, bytes, t)[k].Success?
    ensures Display(read, bytes, t).Success?
  {
    ArrayText(read, bytes, t);
    CollectSpec(ElementResults(read, bytes, t), 0);
  }

  lemma StructFromMembers(read: ScalarReader, bytes: seq<Byte>, t: CType)
    requires t.Struct? && |bytes| == t.size
    requires forall k :: 0 <= k < |t.members| ==> MemberResults(read, bytes, t)[k].Success?
    ensures Display(read, bytes, t).Success?
  {
    StructText(read, bytes, t);
    CollectSpec(MemberResults(read, bytes, t), 0);
  }

  /** A well-formed scalar of the right length always has a text. */
  lemma ScalarTotal(bytes: seq<Byte>, t: CType, e: Endianness)
    requires t.Scalar? && WellFormed(t) && |bytes| == t.size
    ensures DisplayValue(bytes, t, e).Success?
  {
    ScalarDisplay(bytes, t, e);
    if t.kind.CharKind? {
      CharText(bytes, t, e);
    }
  }

  /** A scalar reader that succeeds whenever a char has one byte. */
  ghost predicate ReadsTotal(read: ScalarReader)
  {
    forall bytes: seq<Byte>, signed: bool, kind: ScalarKind :: (kind.CharKind? ==> |bytes| == 1) ==> read(bytes, signed, kind).Success?
  }

  lemma ReadScalarTotal(e: Endianness)
    ensures ReadsTotal(ReadScalar(e))
  {
    forall bytes: seq<Byte>, signed: bool, kind: ScalarKind | kind.CharKind? ==> |bytes| == 1
      ensures ReadScalar(e)(bytes, signed, kind).Success?
    {
      if kind.CharKind? {
        ScalarTotal(bytes, Scalar(1, signed, kind), e);
      }
    }
  }

  /** The walk fails only on a length mismatch when the scalar reader itself never fails. */
  lemma DisplayTotal(read: ScalarReader, bytes: seq<Byte>, t: CType)
    requires ReadsTotal(read) && WellFormed(t)
    ensures Display(read, bytes, t).Success? <==> |bytes| == t.size
    decreases t
  {
    if |bytes| != t.size {
      DisplayChecksLength(read, bytes, t);
    } else {
      match t
      case Scalar(_, _, _) =>
      case Array(et, length, size) =>
        if et.size > 0 {
          forall k | 0 <= k < length
            ensures ElementResults(read, bytes, t)[k].Success?
          {
            ElementAt(read, bytes, t, k);
            DisplayTotal(read, ElementBytes(t, bytes, k), et);
          }
          ArrayFromElements(read, bytes, t);
        }
      case Struct(_, members, _) =>
        forall k | 0 <= k < |members|
          ensures MemberResults(read, bytes, t)[k].Success?
        {
          var m := members[k];
          MemberAt(read, bytes, t, k);
          DisplayTotal(read, bytes[m.relativeAddress..m.relativeAddress + m.ty.size], m.ty);
        }
        StructFromMembers(read, bytes, t);
      case Unknown(_) =>
    }
  }

  /**
   * For a well-formed type, displayValue fails exactly when the byte list has
   * the wrong length: arrays and structures never diverge and chars never
   * meet encodeURI's error.
   */
  lemma DisplayValueTotal(bytes: seq<Byte>, t: CType, e: Endianness)
    requires WellFormed(t)
    ensures DisplayValue(bytes, t, e).Success? <==> |bytes| == t.size
  {
    ReadScalarTotal(e);
    DisplayTotal(ReadScalar(e), bytes, t);
  }

  // ---------------------------------------------------------------------------
  // Padding
  // ---------------------------------------------------------------------------

  /**
   * The padding formula telescopes: from member k on, member sizes plus
   * paddings span exactly from member k's offset to the structure's end.
   */
  lemma {:induction false} PaddingTelescopes(t: CType, k: nat)
    requires t.Struct? && k <= |t.members|
    ensures MemberBytes(t, k) + PaddingBytes(t, k) == t.size - Start(t, k)
    decreases |t.members| - k
  {
    if k < |t.members| {
      PaddingTelescopes(t, k + 1);
    }
  }

  /** In a well-formed structure no padding is negative and member sizes plus paddings are the structure's size. */
  lemma StructSizeSplit(t: CType)
    requires t.Struct? && WellFormed(t)
    ensures forall k :: 0 <= k < |t.members| ==> PaddingAfter(t, k) >= 0
    ensures MemberBytes(t, 0) + PaddingBytes(t, 0) == t.size
  {
    PaddingTelescopes(t, 0);
  }

  // ---------------------------------------------------------------------------
  // Cells
  // ---------------------------------------------------------------------------

  /** The addresses of one cell in front of others. */
  lemma AddressesCons(c: Cell, rest: seq<Cell>)
    ensures Addresses([c] + rest) == (if c.ByteCell? then [c.address] else []) + Addresses(rest)
  {
    assert ([c] + rest)[1..] == rest;
  }

  lemma {:induction false} AddressesConcat(x: seq<Cell>, y: seq<Cell>)
    ensures Addresses(x + y) == Addresses(x) + Addresses(y)
    decreases |x|
  {
    if x != [] {
      var c, x' := x[0], x[1..];
      assert x == [c] + x';
      assert x + y == [c] + (x' + y);
      AddressesConcat(x', y);
      AddressesCons(c, x');
      AddressesCons(c, x' + y);
      var h := if c.ByteCell? then [c.address] else [];
      assert h + (Addresses(x') + Addresses(y)) == (h + Addresses(x')) + Addresses(y);
    } else {
      assert x + y == y;
    }
  }

  lemma {:induction false} AddressesOfByteCells(cells: seq<Cell>, a: int)
    requires forall i :: 0 <= i < |cells| ==> cells[i].ByteCell? && cells[i].address == a + i
    ensures Addresses(cells) == Range(a, |cells|)
    decreases |cells|
  {
    if cells != [] {
      AddressesOfByteCells(cells[1..], a + 1);
      assert [a] + Range(a + 1, |cells| - 1) == Range(a, |cells|);
    }
  }

  lemma {:induction false} RangeConcat(a: int, n: nat, m: nat)
    ensures Range(a, n) + Range(a + n, m) == Range(a, n + m)
    decreases n
  {
    if n > 0 {
      RangeConcat(a + 1, n - 1, m);
      assert [a] + Range(a + 1, n - 1) + Range(a + n, m) == [a] + (Range(a + 1, n - 1) + Range(a + 1 + (n - 1), m));
    } else {
      assert Range(a, 0) + Range(a, m) == Range(a, m);
    }
  }

  /** Range(a, n) lists a, a+1, ..., a+n-1. */
  lemma {:induction false} RangeAt(a: int, n: nat, i: nat)
    requires i < n
    ensures Range(a, n)[i] == a + i
    decreases i
  {
    if i > 0 {
      RangeAt(a + 1, n - 1, i - 1);
    }
  }

  /** `drawUninitBytes(a, n)` is n "??" cells for the consecutive addresses a .. a+n-1. */
  lemma UninitCells(a: int, n: nat)
    ensures Addresses(DrawUninitBytes(a, n)) == Range(a, n)
    ensures forall c :: c in DrawUninitBytes(a, n) ==> c.ByteCell? && c.text == "??"
  {
    AddressesOfByteCells(DrawUninitBytes(a, n), a);
  }

  /** Byte cell i of a scalar leaf sits at address + i and shows byte i as two upper-case hex digits. */
  lemma LeafCellAt(bytes: seq<Byte>, address: int, i: nat)
    requires i < |bytes|
    ensures LeafBytes(DisplayBytes(bytes, Hexadecimal, ""), address, |bytes|)[i]
         == ByteCell(address + i, ByteChunk(bytes[i], Hexadecimal))
  {
    HexPairAt(bytes, i);
  }

  /**
   * A scalar leaf is its tag, tagged with the decoded value when it is a
   * pointer, then one cell per byte: cell i has address address+i and shows
   * byte i as two upper-case hex digits.
   */
  lemma InlineScalarLeaf(t: CType, bytes: seq<Byte>, address: int, e: Endianness, prefix: string)
    requires t.Scalar? && |bytes| == t.size
    requires DisplayValue(bytes, t, e).Success?
    ensures var v := DisplayValue(bytes, t, e).value;
            var r := LeafCells(t, bytes, address, e, prefix);
            && r.Success? && |r.value| == t.size + 1
            && r.value[0] == Label(prefix, if IsPointer(t) then Some(v) else None)
            && forall i :: 0 <= i < t.size ==> r.value[i + 1] == ByteCell(address + i, ByteChunk(bytes[i], Hexadecimal))
  {
    var v := DisplayValue(bytes, t, e).value;
    var tag := Label(prefix, if IsPointer(t) then Some(v) else None);
    var leaf := LeafBytes(DisplayBytes(bytes, Hexadecimal, ""), address, t.size);
    var r := LeafCells(t, bytes, address, e, prefix).value;
    assert r == [tag] + leaf;
    forall i | 0 <= i < t.size
      ensures r[i + 1] == ByteCell(address + i, ByteChunk(bytes[i], Hexadecimal))
    {
      assert r[i + 1] == leaf[i];
      LeafCellAt(bytes, address, i);
    }
  }

  lemma LabelsConcat(x: seq<Cell>, y: seq<Cell>, prefix: string)
    requires LabelsUnder(x, prefix) && LabelsUnder(y, prefix)
    ensures LabelsUnder(x + y, prefix)
  {
    forall i | 0 <= i < |x + y| && (x + y)[i].Label?
      ensures prefix <= (x + y)[i].text
    {
      if i >= |x| {
        assert (x + y)[i] == y[i - |x|];
      }
    }
  }

  lemma LabelsWiden(cells: seq<Cell>, prefix: string, longer: string)
    requires prefix <= longer && LabelsUnder(cells, longer)
    ensures LabelsUnder(cells, prefix)
  {
    forall i | 0 <= i < |cells| && cells[i].Label?
      ensures prefix <= cells[i].text
    {
      var text := cells[i].text;
      assert text[..|prefix|] == text[..|longer|][..|prefix|];
    }
  }

  lemma ExtendsPrefix(prefix: string, more: string)
    ensures prefix <= prefix + more
  {
    assert (prefix + more)[..|prefix|] == prefix;
  }

  /**
   * The view exists, every tag in it starts with `prefix`, and its byte cells
   * carry exactly the addresses a, a+1, ..., a+n-1, in that order.
   */
  predicate Covers(r: Result<seq<Cell>, DecodeError>, prefix: string, a: int, n: nat)
  {
    r.Success? && LabelsUnder(r.value, prefix) && Addresses(r.value) == Range(a, n)
  }

  /**
   * Two views laid side by side: if the first covers n addresses from a with
   * tags under `longer`, and the second the m addresses after them with tags
   * under `prefix`, together they cover n + m addresses from a under `prefix`.
   */
  lemma ThenJoin(x: Result<seq<Cell>, DecodeError>, y: Result<seq<Cell>, DecodeError>,
                 a: int, n: nat, b: int, m: nat, total: nat, prefix: string, longer: string)
    requires b == a + n && total == n + m && prefix <= longer
    requires Covers(x, longer, a, n) && Covers(y, prefix, b, m)
    ensures Covers(Then(x, y), prefix, a, total)
  {
    AddressesConcat(x.value, y.value);
    RangeConcat(a, n, m);
    LabelsWiden(x.value, prefix, longer);
    LabelsConcat(x.value, y.value, prefix);
  }

  /** A scalar's cells: its tag, then its bytes at address .. address+size-1. */
  lemma LeafLayout(t: CType, bytes: seq<Byte>, address: int, e: Endianness, prefix: string)
    requires t.Scalar? && WellFormed(t) && |bytes| == t.size
    ensures Covers(LeafCells(t, bytes, address, e, prefix), prefix, address, t.size)
  {
    ScalarTotal(bytes, t, e);
    var v := DisplayValue(bytes, t, e).value;
    var leaf := LeafBytes(DisplayBytes(bytes, Hexadecimal, ""), address, t.size);
    var tag := Label(prefix, if IsPointer(t) then Some(v) else None);
    AddressesOfByteCells(leaf, address);
    AddressesConcat([tag], leaf);
    assert LeafCells(t, bytes, address, e, prefix).value == [tag] + leaf;
    assert LabelsUnder([tag], prefix);
    LabelsConcat([tag], leaf, prefix);
  }

  /** The property every scalar leaf has and the walk passes on: tags under the prefix, one cell per byte in order. */
  ghost predicate LeavesCover(leaf: LeafRenderer)
  {
    forall t: CType, bytes: seq<Byte>, address: int, prefix: string :: t.Scalar? && WellFormed(t) && |bytes| == t.size ==>
      Covers(leaf(t, bytes, address, prefix), prefix, address, t.size)
  }

  lemma LeafCellsCover(e: Endianness)
    ensures LeavesCover(Leaf(e))
  {
    forall t: CType, bytes: seq<Byte>, address: int, prefix: string | t.Scalar? && WellFormed(t) && |bytes| == t.size
      ensures Covers(Leaf(e)(t, bytes, address, prefix), prefix, address, t.size)
    {
      LeafLayout(t, bytes, address, e, prefix);
    }
  }

  /** The padding after member k covers the PaddingAfter(t, k) addresses after the member and carries no tag. */
  lemma PaddingLayout(t: CType, address: int, k: nat, prefix: string)
    requires t.Struct? && k < |t.members| && PaddingAfter(t, k) >= 0
    ensures Covers(Success(PaddingCells(t, address, k)), prefix, address + t.members[k].relativeAddress + t.members[k].ty.size, PaddingAfter(t, k))
  {
    var m := t.members[k];
    var pad := PaddingAfter(t, k);
    var uninit := DrawUninitBytes(address + m.relativeAddress + m.ty.size, pad);
    UninitCells(address + m.relativeAddress + m.ty.size, pad);
    if pad > 0 {
      AddressesConcat([PadLabel], uninit);
      var cells := [PadLabel] + uninit;
      forall i | 0 <= i < |cells|
        ensures !cells[i].Label?
      {
        if i > 0 {
          assert cells[i] == uninit[i - 1];
          assert cells[i] in uninit;
        }
      }
      assert LabelsUnder(cells, prefix);
    } else {
      assert PaddingCells(t, address, k) == [];
    }
  }

  /**
   * For a well-formed type and the right number of bytes, the inline view
   * exists, every tag in it starts with the given prefix, and its byte cells
   * carry exactly the addresses address .. address+size-1 in increasing
   * order: each byte of the object once, padding included.
   */
  lemma InlineLayout(t: CType, bytes: seq<Byte>, address: int, e: Endianness, prefix: string)
    requires WellFormed(t) && |bytes| == t.size
    ensures Covers(DrawInline(t, bytes, address, e, prefix), prefix, address, t.size)
  {
    LeafCellsCover(e);
    DrawLayout(Leaf(e), t, bytes, address, prefix);
  }

  lemma {:induction false} DrawLayout(leaf: LeafRenderer, t: CType, bytes: seq<Byte>, address: int, prefix: string)
    requires LeavesCover(leaf) && WellFormed(t) && |bytes| == t.size
    ensures Covers(Draw(leaf, t, bytes, address, prefix), prefix, address, t.size)
    decreases t, 1
  {
    match t
    case Scalar(_, _, _) =>
    case Array(_, _, _) =>
      ElementsLayout(leaf, t, bytes, address, prefix, 0);
      OffsetAtEnd(t);
    case Struct(_, _, _) =>
      MembersLayout(leaf, t, bytes, address, prefix, 0);
  }

  /** The array loop's turn at element i puts element i's cells in front of the rest's. */
  lemma ElementsUnfold(leaf: LeafRenderer, t: CType, bytes: seq<Byte>, address: int, prefix: string, i: nat)
    requires t.Array? && i < t.length
    ensures InlineElements(leaf, t, bytes, address, prefix, i)
         == Then(Draw(leaf, t.elementType, ElementBytes(t, bytes, i), address + ElementOffset(t, i), ElementTag(prefix, i)),
                 InlineElements(leaf, t, bytes, address, prefix, i + 1))
  {
  }

  lemma ElementsDone(leaf: LeafRenderer, t: CType, bytes: seq<Byte>, address: int, prefix: string)
    requires t.Array?
    ensures Covers(InlineElements(leaf, t, bytes, address, prefix, t.length), prefix, address + ElementOffset(t, t.length), ElementsSpan(t, t.length))
  {
  }

  lemma TagExtends(prefix: string, i: nat)
    ensures prefix <= ElementTag(prefix, i)
  {
    ExtendsPrefix(prefix, "[" + NumberToString(i, 10) + "]");
    assert ElementTag(prefix, i) == prefix + ("[" + NumberToString(i, 10) + "]");
  }

  lemma SpanStep(t: CType, i: nat)
    requires t.Array? && i < t.length
    ensures ElementsSpan(t, i) == t.elementType.size + ElementsSpan(t, i + 1)
  {
  }

  /** The array loop's turn at element i: the element's cells under its own tag, then the rest's, cover the addresses from the element on. */
  lemma ElementTurn(t: CType, address: int, prefix: string, i: nat,
                    cells: Result<seq<Cell>, DecodeError>, rest: Result<seq<Cell>, DecodeError>, whole: Result<seq<Cell>, DecodeError>)
    requires t.Array? && i < t.length && ElementOffset(t, i + 1) == ElementOffset(t, i) + t.elementType.size
    requires whole == Then(cells, rest)
    requires Covers(cells, ElementTag(prefix, i), address + ElementOffset(t, i), t.elementType.size)
    requires Covers(rest, prefix, address + ElementOffset(t, i + 1), ElementsSpan(t, i + 1))
    ensures Covers(whole, prefix, address + ElementOffset(t, i), ElementsSpan(t, i))
  {
    SpanStep(t, i);
    TagExtends(prefix, i);
    ThenJoin(cells, rest, address + ElementOffset(t, i), t.elementType.size, address + ElementOffset(t, i + 1),
             ElementsSpan(t, i + 1), ElementsSpan(t, i), prefix, ElementTag(prefix, i));
  }

  /** Element i of an array lies inside it and its bytes are exactly its size. */
  lemma ElementFits(t: CType, bytes: seq<Byte>, i: nat)
    requires t.Array? && t.size == t.length * t.elementType.size && |bytes| == t.size && i < t.length
    ensures ElementOffset(t, i + 1) == ElementOffset(t, i) + t.elementType.size <= t.size
    ensures |ElementBytes(t, bytes, i)| == t.elementType.size
  {
    OffsetStep(t, i);
  }

  /** Element i of an array is drawn under its own tag over its own addresses. */
  lemma ElementLayout(leaf: LeafRenderer, t: CType, bytes: seq<Byte>, address: int, prefix: string, i: nat)
    requires LeavesCover(leaf) && t.Array? && WellFormed(t.elementType) && t.size == t.length * t.elementType.size
    requires |bytes| == t.size && i < t.length
    ensures Covers(Draw(leaf, t.elementType, ElementBytes(t, bytes, i), address + ElementOffset(t, i), ElementTag(prefix, i)),
                   ElementTag(prefix, i), address + ElementOffset(t, i), t.elementType.size)
    decreases t, 0, t.length - i, 0
  {
    ElementFits(t, bytes, i);
    DrawLayout(leaf, t.elementType, ElementBytes(t, bytes, i), address + ElementOffset(t, i), ElementTag(prefix, i));
  }

  /** One turn of the array loop: given the cells of the elements after i, those from element i on. */
  lemma ElementLayoutStep(leaf: LeafRenderer, t: CType, bytes: seq<Byte>, address: int, prefix: string, i: nat)
    requires LeavesCover(leaf) && t.Array? && WellFormed(t.elementType) && t.size == t.length * t.elementType.size
    requires |bytes| == t.size && i < t.length
    requires Covers(InlineElements(leaf, t, bytes, address, prefix, i + 1), prefix, address + ElementOffset(t, i + 1), ElementsSpan(t, i + 1))
    ensures Covers(InlineElements(leaf, t, bytes, address, prefix, i), prefix, address + ElementOffset(t, i), ElementsSpan(t, i))
    decreases t, 0, t.length - i, 1
  {
    ElementLayout(leaf, t, bytes, address, prefix, i);
    OffsetStep(t, i);
    ElementsUnfold(leaf, t, bytes, address, prefix, i);
    ElementTurn(t, address, prefix, i,
                Draw(leaf, t.elementType, ElementBytes(t, bytes, i), address + ElementOffset(t, i), ElementTag(prefix, i)),
                InlineElements(leaf, t, bytes, address, prefix, i + 1),
                InlineElements(leaf, t, bytes, address, prefix, i));
  }

  lemma {:induction false} ElementsLayout(leaf: LeafRenderer, t: CType, bytes: seq<Byte>, address: int, prefix: string, i: nat)
    requires LeavesCover(leaf) && t.Array? && WellFormed(t.elementType) && t.size == t.length * t.elementType.size
    requires |bytes| == t.size && i <= t.length
    ensures Covers(InlineElements(leaf, t, bytes, address, prefix, i), prefix, address + ElementOffset(t, i), ElementsSpan(t, i))
    decreases t, 0, t.length - i, 2
  {
    if i < t.length {
      ElementsLayout(leaf, t, bytes, address, prefix, i + 1);
      ElementLayoutStep(leaf, t, bytes, address, prefix, i);
    } else {
      ElementsDone(leaf, t, bytes, address, prefix);
    }
  }

  /** The structure loop's turn at member k puts the member's cells and its padding in front of the rest's. */
  lemma MembersUnfold(leaf: LeafRenderer, t: CType, bytes: seq<Byte>, address: int, prefix: string, k: nat)
    requires t.Struct? && k < |t.members|
    ensures InlineMembers(leaf, t, bytes, address, prefix, k)
         == Then(Then(Draw(leaf, t.members[k].ty, MemberSlice(t, bytes, k), address + t.members[k].relativeAddress,
                           prefix + "." + t.members[k].name),
                      Success(PaddingCells(t, address, k))),
                 InlineMembers(leaf, t, bytes, address, prefix, k + 1))
  {
  }

  lemma MembersDone(leaf: LeafRenderer, t: CType, bytes: seq<Byte>, address: int, prefix: string)
    requires t.Struct?
    ensures Covers(InlineMembers(leaf, t, bytes, address, prefix, |t.members|), prefix, address + Start(t, |t.members|), t.size - Start(t, |t.members|))
  {
  }

  /** In a well-formed structure, member k is well formed, its bytes are its size and its padding is not negative. */
  lemma MemberFits(t: CType, bytes: seq<Byte>, k: nat)
    requires t.Struct? && WellFormed(t) && |bytes| == t.size && k < |t.members|
    ensures WellFormed(t.members[k].ty) && PaddingAfter(t, k) >= 0
    ensures |MemberSlice(t, bytes, k)| == t.members[k].ty.size
    ensures Start(t, k) == t.members[k].relativeAddress
    ensures Start(t, k + 1) == t.members[k].relativeAddress + t.members[k].ty.size + PaddingAfter(t, k) <= t.size
  {
    NextOffsetBound(t, k);
  }

  /** A member's cells under its own tag, its padding and the rest's cells, laid side by side. */
  lemma MemberJoin(cells: Result<seq<Cell>, DecodeError>, padding: seq<Cell>, rest: Result<seq<Cell>, DecodeError>,
                   prefix: string, tag: string, at: int, size: nat, pad: nat, more: nat)
    requires prefix <= tag
    requires Covers(cells, tag, at, size)
    requires Covers(Success(padding), prefix, at + size, pad)
    requires Covers(rest, prefix, at + size + pad, more)
    ensures Covers(Then(Then(cells, Success(padding)), rest), prefix, at, size + pad + more)
  {
    ThenJoin(cells, Success(padding), at, size, at + size, pad, size + pad, prefix, tag);
    ThenJoin(Then(cells, Success(padding)), rest, at, size + pad, at + size + pad, more, size + pad + more, prefix, prefix);
  }

  /**
   * The structure loop's turn at member k: the member's cells, then its
   * padding, then the rest's cells cover the addresses from the member on.
   */
  lemma MemberTurn(t: CType, address: int, prefix: string, k: nat,
                   cells: Result<seq<Cell>, DecodeError>, rest: Result<seq<Cell>, DecodeError>, whole: Result<seq<Cell>, DecodeError>)
    requires t.Struct? && k < |t.members| && PaddingAfter(t, k) >= 0 && Start(t, k + 1) <= t.size
    requires whole == Then(Then(cells, Success(PaddingCells(t, address, k))), rest)
    requires Covers(cells, prefix + "." + t.members[k].name, address + t.members[k].relativeAddress, t.members[k].ty.size)
    requires Covers(rest, prefix, address + Start(t, k + 1), t.size - Start(t, k + 1))
    ensures Start(t, k) <= t.size
    ensures Covers(whole, prefix, address + Start(t, k), t.size - Start(t, k))
  {
    PaddingLayout(t, address, k, prefix);
    ExtendsPrefix(prefix, "." + t.members[k].name);
    assert prefix + "." + t.members[k].name == prefix + ("." + t.members[k].name);
    MemberJoin(cells, PaddingCells(t, address, k), rest,
               prefix, prefix + "." + t.members[k].name, address + t.members[k].relativeAddress,
               t.members[k].ty.size, PaddingAfter(t, k), t.size - Start(t, k + 1));
  }

  /** Member k of a structure is drawn under its own tag over its own addresses. */
  lemma MemberLayout(leaf: LeafRenderer, t: CType, bytes: seq<Byte>, address: int, prefix: string, k: nat)
    requires LeavesCover(leaf) && t.Struct? && WellFormed(t) && |bytes| == t.size && k < |t.members|
    ensures PaddingAfter(t, k) >= 0 && Start(t, k + 1) <= t.size
    ensures Covers(Draw(leaf, t.members[k].ty, MemberSlice(t, bytes, k), address + t.members[k].relativeAddress,
                        prefix + "." + t.members[k].name),
                   prefix + "." + t.members[k].name, address + t.members[k].relativeAddress, t.members[k].ty.size)
    decreases t, 0, |t.members| - k, 0
  {
    MemberFits(t, bytes, k);
    DrawLayout(leaf, t.members[k].ty, MemberSlice(t, bytes, k), address + t.members[k].relativeAddress,
               prefix + "." + t.members[k].name);
  }

  /** One turn of the structure loop: given the cells of the members after k, those from member k on. */
  lemma MemberLayoutStep(leaf: LeafRenderer, t: CType, bytes: seq<Byte>, address: int, prefix: string, k: nat)
    requires LeavesCover(leaf) && t.Struct? && WellFormed(t) && |bytes| == t.size && k < |t.members|
    requires Start(t, k + 1) <= t.size
    requires Covers(InlineMembers(leaf, t, bytes, address, prefix, k + 1), prefix, address + Start(t, k + 1), t.size - Start(t, k + 1))
    ensures Start(t, k) <= t.size
    ensures Covers(InlineMembers(leaf, t, bytes, address, prefix, k), prefix, address + Start(t, k), t.size - Start(t, k))
    decreases t, 0, |t.members| - k, 1
  {
    MemberLayout(leaf, t, bytes, address, prefix, k);
    MembersUnfold(leaf, t, bytes, address, prefix, k);
    MemberTurn(t, address, prefix, k,
               Draw(leaf, t.members[k].ty, MemberSlice(t, bytes, k), address + t.members[k].relativeAddress,
                    prefix + "." + t.members[k].name),
               InlineMembers(leaf, t, bytes, address, prefix, k + 1),
               InlineMembers(leaf, t, bytes, address, prefix, k));
  }

  lemma {:induction false} MembersLayout(leaf: LeafRenderer, t: CType, bytes: seq<Byte>, address: int, prefix: string, k: nat)
    requires LeavesCover(leaf) && t.Struct? && WellFormed(t) && |bytes| == t.size && k <= |t.members|
    ensures Start(t, k) <= t.size
    ensures Covers(InlineMembers(leaf, t, bytes, address, prefix, k), prefix, address + Start(t, k), t.size - Start(t, k))
    decreases t, 0, |t.members| - k, 2
  {
    if k < |t.members| {
      MembersLayout(leaf, t, bytes, address, prefix, k + 1);
      MemberLayoutStep(leaf, t, bytes, address, prefix, k);
    } else {
      MembersDone(leaf, t, bytes, address, prefix);
      if |t.members| == 0 {
        assert t.size == 0;
      }
    }
  }

  // ---------------------------------------------------------------------------
  // visualizeObject
  // ---------------------------------------------------------------------------

  /** Keys 2i and 2i+1 of a dump show its characters 2i and 2i+1. */
  lemma NibblePair(s: string, n: nat, i: nat)
    requires 2 * i + 1 < n && 2 * i + 2 <= |s|
    ensures Nibbles(s, n)[2 * i] + Nibbles(s, n)[2 * i + 1] == s[2 * i..2 * i + 2]
  {
    assert s[2 * i..2 * i + 2] == [s[2 * i], s[2 * i + 1]];
  }

  /** In a separator-less hex dump, byte i is characters 2i and 2i+1. */
  lemma HexPairAt(bytes: seq<Byte>, i: nat)
    requires i < |bytes|
    ensures |DisplayBytes(bytes, Hexadecimal, "")| == 2 * |bytes|
    ensures DisplayBytes(bytes, Hexadecimal, "")[2 * i..2 * i + 2] == ByteChunk(bytes[i], Hexadecimal)
  {
    assert Width(Hexadecimal) == 2;
    ChunkAt(bytes, Hexadecimal, i);
  }

  lemma ScalarNibbleAt(bytes: seq<Byte>, i: nat)
    requires i < |bytes|
    ensures var ns := Nibbles(DisplayBytes(bytes, Hexadecimal, ""), 2 * |bytes|);
            ns[2 * i] + ns[2 * i + 1] == ByteChunk(bytes[i], Hexadecimal)
  {
    HexPairAt(bytes, i);
    NibblePair(DisplayBytes(bytes, Hexadecimal, ""), 2 * |bytes|, i);
  }

  /** A scalar's table cell is its address and 2*size keys, keys 2i and 2i+1 showing byte i in hex. */
  lemma ScalarViewNibbles(t: CType, bytes: seq<Byte>, address: int)
    requires t.Scalar? && |bytes| == t.size
    ensures Visualize(t, bytes, address).ScalarView?
    ensures Visualize(t, bytes, address).address == address
    ensures |Visualize(t, bytes, address).nibbles| == 2 * t.size
    ensures forall i :: 0 <= i < t.size ==>
              Visualize(t, bytes, address).nibbles[2 * i] + Visualize(t, bytes, address).nibbles[2 * i + 1]
              == ByteChunk(bytes[i], Hexadecimal)
  {
    var ns := Nibbles(DisplayBytes(bytes, Hexadecimal, ""), 2 * |bytes|);
    assert Visualize(t, bytes, address) == ScalarView(address, ns);
    forall i | 0 <= i < t.size
      ensures ns[2 * i] + ns[2 * i + 1] == ByteChunk(bytes[i], Hexadecimal)
    {
      ScalarNibbleAt(bytes, i);
    }
  }

  /** One member's rows in front of the rest: one more member row, and the padding row's marks. */
  lemma RowCountsStep(first: Row, pad: int, at: int, rest: seq<Row>)
    requires first.MemberRow?
    ensures var rows := [first] + (if pad > 0 then [PaddingRow(at, 2 * pad)] else []) + rest;
            && MemberRowCount(rows) == 1 + MemberRowCount(rest)
            && PaddingMarks(rows) == (if pad > 0 then 2 * pad else 0) + PaddingMarks(rest)
  {
    var padRows := if pad > 0 then [PaddingRow(at, 2 * pad)] else [];
    var rows := [first] + padRows + rest;
    assert rows[1..] == padRows + rest;
    if pad > 0 {
      assert (padRows + rest)[1..] == rest;
    }
  }

  lemma {:induction false} RowsFrom(t: CType, bytes: seq<Byte>, address: int, k: nat)
    requires t.Struct? && WellFormed(t) && k <= |t.members|
    ensures MemberRowCount(VisualRows(t, bytes, address, k)) == |t.members| - k
    ensures PaddingMarks(VisualRows(t, bytes, address, k)) == 2 * PaddingBytes(t, k)
    decreases |t.members| - k
  {
    if k < |t.members| {
      RowsFrom(t, bytes, address, k + 1);
      assert WellFormed(t.members[k].ty) && PaddingAfter(t, k) >= 0;
      RowCountsStep(MemberRow(t.members[k].name, Visualize(t.members[k].ty, MemberSlice(t, bytes, k), address + t.members[k].relativeAddress)),
                    PaddingAfter(t, k), address + t.members[k].relativeAddress + t.members[k].ty.size,
                    VisualRows(t, bytes, address, k + 1));
    }
  }

  /**
   * A well-formed structure's table has one row per member, and its padding
   * rows show two question marks per padding byte: twice the structure's size
   * less its members' sizes.
   */
  lemma StructViewRows(t: CType, bytes: seq<Byte>, address: int)
    requires t.Struct? && WellFormed(t)
    ensures MemberRowCount(Visualize(t, bytes, address).rows) == |t.members|
    ensures PaddingMarks(Visualize(t, bytes, address).rows) == 2 * (t.size - MemberBytes(t, 0))
  {
    RowsFrom(t, bytes, address, 0);
    StructSizeSplit(t);
  }

  /** From element i on, the array view holds one view per remaining element. */
  lemma {:induction false} VisualElementsLength(t: CType, bytes: seq<Byte>, address: int, i: nat)
    requires t.Array? && i <= t.length
    ensures |VisualElements(t, bytes, address, i)| == t.length - i
    decreases t.length - i
  {
    if i < t.length {
      VisualElementsLength(t, bytes, address, i + 1);
    }
  }

  /** Past the first view from element i on come the views from element i + 1 on. */
  lemma VisualElementsUnfold(t: CType, bytes: seq<Byte>, address: int, i: nat, rest: seq<View>)
    requires t.Array? && i < t.length
    requires rest == VisualElements(t, bytes, address, i + 1)
    ensures |VisualElements(t, bytes, address, i)| == |rest| + 1
    ensures forall k :: 0 < k <= |rest| ==> VisualElements(t, bytes, address, i)[k] == rest[k - 1]
  {
  }

  /** View j − i from element i on is the first view from element j on. */
  lemma {:induction false} VisualElementAt(t: CType, bytes: seq<Byte>, address: int, i: nat, j: nat)
    requires t.Array? && i <= j < t.length
    ensures j - i < |VisualElements(t, bytes, address, i)|
    ensures 0 < |VisualElements(t, bytes, address, j)|
    ensures VisualElements(t, bytes, address, i)[j - i] == VisualElements(t, bytes, address, j)[0]
    decreases j - i
  {
    VisualElementsLength(t, bytes, address, i);
    VisualElementsLength(t, bytes, address, j);
    if i < j {
      var rest := VisualElements(t, bytes, address, i + 1);
      VisualElementsUnfold(t, bytes, address, i, rest);
      VisualElementAt(t, bytes, address, i + 1, j);
    }
  }

  /** The first view from element i on is element i, drawn at its own offset from its own bytes. */
  lemma VisualElementHead(t: CType, bytes: seq<Byte>, address: int, i: nat)
    requires t.Array? && i < t.length
    ensures 0 < |VisualElements(t, bytes, address, i)|
    ensures VisualElements(t, bytes, address, i)[0]
            == Visualize(t.elementType, ElementBytes(t, bytes, i), address + ElementOffset(t, i))
  {
  }

  /**
   * An array's table view has one view per element, element i drawn at
   * address + i*es from the bytes [i*es, (i+1)*es).
   */
  lemma ArrayViewElements(t: CType, bytes: seq<Byte>, address: int)
    requires t.Array?
    ensures Visualize(t, bytes, address).ArrayView?
    ensures |Visualize(t, bytes, address).elements| == t.length
    ensures forall i :: 0 <= i < t.length ==>
              Visualize(t, bytes, address).elements[i]
              == Visualize(t.elementType, Slice(bytes, i * t.elementType.size, (i + 1) * t.elementType.size),
                           address + i * t.elementType.size)
  {
    VisualElementsLength(t, bytes, address, 0);
    forall i | 0 <= i < t.length
      ensures Visualize(t, bytes, address).elements[i]
              == Visualize(t.elementType, Slice(bytes, i * t.elementType.size, (i + 1) * t.elementType.size),
                           address + i * t.elementType.size)
    {
      VisualElementAt(t, bytes, address, 0, i);
      VisualElementHead(t, bytes, address, i);
      OffsetIsProduct(t, i);
      OffsetIsProduct(t, i + 1);
    }
  }
}
