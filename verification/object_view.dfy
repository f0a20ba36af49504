/**
 * The type-directed views of src/utils/object.tsx: displayValue (the value an
 * object representation denotes, as text), drawObjectInline and drawUninitBytes
 * (one bordered cell per byte, identified by its absolute address) and
 * visualizeObject (the nested table of members, elements, padding and
 * nibbles).
 */
module ObjectView {
  import opened Wrappers
  import opened JsText
  import opened CTypes
  import opened HexFormat

  /** Why displayValue produces no string. */
  datatype DecodeError =
    | SizeMismatch  // "number of bytes do not match type given"
    | UriError      // encodeURI rejects a lone surrogate code unit
    | Diverges      // an array of zero-sized elements that is not itself empty: the loop never advances

  // ---------------------------------------------------------------------------
  // encodeURI(String.fromCharCode(n))
  // ---------------------------------------------------------------------------

  const CODE_UNITS: nat := 0x1_0000

  /** String.fromCharCode keeps its argument modulo 2^16. */
  function CodeUnit(n: int): nat
  {
    n % CODE_UNITS
  }

  predicate IsSurrogate(u: nat)
  {
    0xD800 <= u <= 0xDFFF
  }

  /** The characters encodeURI leaves as they are: ASCII letters, digits and -_.!~*'();/?:@&=+$,# */
  predicate IsUriUnescaped(u: nat)
  {
    || ('a' as nat <= u <= 'z' as nat)
    || ('A' as nat <= u <= 'Z' as nat)
    || ('0' as nat <= u <= '9' as nat)
    || (u < 128 && (u as char) in "-_.!~*'();/?:@&=+$,#")
  }

  /** The UTF-8 bytes of one code unit. */
  function Utf8(u: nat): (r: seq<nat>)
    requires u < CODE_UNITS
    ensures 1 <= |r| <= 3 && AllBytes(r)
  {
    if u < 0x80 then [u]
    else if u < 0x800 then [0xC0 + u / 64, 0x80 + u % 64]
    else [0xE0 + u / 4096, 0x80 + (u / 64) % 64, 0x80 + u % 64]
  }

  /** encodeURI of a one-unit string: the unit itself, its UTF-8 bytes as %XX escapes, or a URIError. */
  function EncodeUri(u: nat): Result<string, DecodeError>
    requires u < CODE_UNITS
  {
    if IsSurrogate(u) then Failure(UriError)
    else if IsUriUnescaped(u) then Success([u as char])
    else Success("%" + DisplayBytes(Utf8(u), Hexadecimal, "%"))
  }

  // ---------------------------------------------------------------------------
  // displayValue
  // ---------------------------------------------------------------------------

  /** The text of a scalar whose bytes read as n. */
  function ScalarText(n: int, kind: ScalarKind): Result<string, DecodeError>
  {
    match kind
    case CharKind =>
      var q :- EncodeUri(CodeUnit(n));
      Success("'" + q + "'")
    case PointerKind(_) => Success(if n == 0 then "NULL" else "0x" + DecimalAddressToHex(n))
    case IntegerKind => Success(NumberToString(n, 10))
  }

  /** How a scalar's bytes become text, given its signedness and kind. */
  type ScalarReader = (seq<Byte>, bool, ScalarKind) -> Result<string, DecodeError>

  /** The scalar case of displayValue: read the bytes as an integer in the given order, then format it by kind. */
  function ReadScalar(e: Endianness): ScalarReader
  {
    (bytes, signed, kind) => ScalarText(BytesToBigint(bytes, signed, e), kind)
  }

  /** `displayValue(bytes, t, endianness)`; a thrown error is a Failure. */
  function DisplayValue(bytes: seq<Byte>, t: CType, e: Endianness): Result<string, DecodeError>
  {
    Display(ReadScalar(e), bytes, t)
  }

  /**
   * displayValue's walk over the type with the scalar case passed in as
   * `read`: the length check, then a scalar's text, an array's elements, a
   * structure's members, or "?".
   */
  function Display(read: ScalarReader, bytes: seq<Byte>, t: CType): Result<string, DecodeError>
    decreases t, 1
  {
    if |bytes| != t.size then Failure(SizeMismatch)
    else match t
      case Scalar(_, signed, kind) => read(bytes, signed, kind)
      case Array(et, _, size) =>
        if et.size == 0 && size > 0 then Failure(Diverges)
        else Bracketed("[", ElementValues(read, bytes, t, 0), "]")
      case Struct(tag, _, _) => Bracketed(tag + "{", MemberValues(read, bytes, t, 0), "}")
      case Unknown(_) => Success("?")
  }

  /** The entries joined with ", " between open and close, or the error that stopped the loop. */
  function Bracketed(open: string, entries: Result<seq<string>, DecodeError>, close: string): Result<string, DecodeError>
  {
    match entries
    case Success(vs) => Success(open + Join(vs, ", ") + close)
    case Failure(err) => Failure(err)
  }

  /** The array loop from byte offset i on: one element per elementType.size bytes while i < size. */
  function ElementValues(read: ScalarReader, bytes: seq<Byte>, t: CType, i: nat): Result<seq<string>, DecodeError>
    requires t.Array? && (t.elementType.size > 0 || t.size == 0)
    decreases t, 0, if i < t.size then t.size - i else 0
  {
    if i >= t.size then Success([])
    else Turn(Display(read, Slice(bytes, i, i + t.elementType.size), t.elementType),
              ElementValues(read, bytes, t, i + t.elementType.size))
  }

  /** The bytes of member k of a structure: [rel, rel + size). */
  function MemberSlice(t: CType, bytes: seq<Byte>, k: nat): seq<Byte>
    requires t.Struct? && k < |t.members|
  {
    Slice(bytes, t.members[k].relativeAddress, t.members[k].relativeAddress + t.members[k].ty.size)
  }

  /** The structure loop from member k on: each member decoded from its own bytes. */
  function MemberValues(read: ScalarReader, bytes: seq<Byte>, t: CType, k: nat): Result<seq<string>, DecodeError>
    requires t.Struct? && k <= |t.members|
    decreases t, 0, |t.members| - k
  {
    if k == |t.members| then Success([])
    else Turn(Display(read, MemberSlice(t, bytes, k), t.members[k].ty), MemberValues(read, bytes, t, k + 1))
  }

  lemma PrependStep(done: seq<string>, v: string, rest: Result<seq<string>, DecodeError>)
    ensures Prepend(done, Prepend([v], rest)) == Prepend(done + [v], rest)
  {
    if rest.Success? {
      assert done + ([v] + rest.value) == (done + [v]) + rest.value;
    }
  }

  /** The loop's turn with entry v: stop with v's error, or push v's text and go on with the rest. */
  function Turn(v: Result<string, DecodeError>, rest: Result<seq<string>, DecodeError>): Result<seq<string>, DecodeError>
  {
    if v.Failure? then Failure(v.error) else Prepend([v.value], rest)
  }

  lemma TurnAfter(done: seq<string>, v: Result<string, DecodeError>, rest: Result<seq<string>, DecodeError>)
    ensures Prepend(done, Turn(v, rest)) == if v.Failure? then Failure(v.error) else Prepend(done + [v.value], rest)
  {
    if v.Success? {
      PrependStep(done, v.value, rest);
    }
  }

  /** One turn of the array loop: push the element at byte offset i, or stop with its error. */
  lemma ElementStep(read: ScalarReader, bytes: seq<Byte>, t: CType, i: nat, done: seq<string>, v: Result<string, DecodeError>)
    requires t.Array? && t.elementType.size > 0 && i < t.size
    requires v == Display(read, Slice(bytes, i, i + t.elementType.size), t.elementType)
    ensures v.Failure? ==> Prepend(done, ElementValues(read, bytes, t, i)) == Failure(v.error)
    ensures v.Success? ==>
              Prepend(done, ElementValues(read, bytes, t, i)) == Prepend(done + [v.value], ElementValues(read, bytes, t, i + t.elementType.size))
  {
    TurnAfter(done, v, ElementValues(read, bytes, t, i + t.elementType.size));
  }

  /** One turn of the structure loop: push member k's entry, or stop with its error. */
  lemma MemberStep(read: ScalarReader, bytes: seq<Byte>, t: CType, k: nat, done: seq<string>, v: Result<string, DecodeError>)
    requires t.Struct? && k < |t.members|
    requires v == Display(read, MemberSlice(t, bytes, k), t.members[k].ty)
    ensures v.Failure? ==> Prepend(done, MemberValues(read, bytes, t, k)) == Failure(v.error)
    ensures v.Success? ==> Prepend(done, MemberValues(read, bytes, t, k)) == Prepend(done + [v.value], MemberValues(read, bytes, t, k + 1))
  {
    TurnAfter(done, v, MemberValues(read, bytes, t, k + 1));
  }

  /** displayValue as the source writes it, with its loops that push into a result list. */
  method ComputeDisplayValue(bytes: seq<Byte>, t: CType, e: Endianness) returns (r: Result<string, DecodeError>)
    ensures r == DisplayValue(bytes, t, e)
  {
    r := ComputeDisplay(ReadScalar(e), bytes, t);
  }

  method ComputeDisplay(read: ScalarReader, bytes: seq<Byte>, t: CType) returns (r: Result<string, DecodeError>)
    ensures r == Display(read, bytes, t)
    decreases t, 1
  {
    if |bytes| != t.size {
      return Failure(SizeMismatch);
    }
    match t {
      case Scalar(_, signed, kind) =>
        r := read(bytes, signed, kind);
      case Unknown(_) =>
        r := Success("?");
      case Array(et, _, size) =>
        if et.size == 0 && size > 0 {
          return Failure(Diverges);
        }
        var elems := ComputeElements(read, bytes, t);
        r := Bracketed("[", elems, "]");
      case Struct(tag, _, _) =>
        var entries := ComputeMembers(read, bytes, t);
        r := Bracketed(tag + "{", entries, "}");
    }
  }

  /** The array loop: `for (i = 0; i < t.size; i += et.size) res.push(...)`. */
  method ComputeElements(read: ScalarReader, bytes: seq<Byte>, t: CType) returns (r: Result<seq<string>, DecodeError>)
    requires t.Array? && (t.elementType.size > 0 || t.size == 0)
    ensures r == ElementValues(read, bytes, t, 0)
    decreases t, 0
  {
    ghost var total := ElementValues(read, bytes, t, 0);
    var es := t.elementType.size;
    var res: seq<string> := [];
    var i: nat := 0;
    PrependNothing(total);
    while i < t.size
      invariant total == Prepend(res, ElementValues(read, bytes, t, i))
      decreases t.size - i
    {
      var v := ComputeDisplay(read, Slice(bytes, i, i + es), t.elementType);
      ElementStep(read, bytes, t, i, res, v);
      if v.Failure? {
        return Failure(v.error);
      }
      res := res + [v.value];
      i := i + es;
    }
    assert ElementValues(read, bytes, t, i) == Success([]);
    assert res + [] == res;
    r := Success(res);
  }

  /** The structure loop: `for (const i of t.members) res.push(...)`. */
  method ComputeMembers(read: ScalarReader, bytes: seq<Byte>, t: CType) returns (r: Result<seq<string>, DecodeError>)
    requires t.Struct?
    ensures r == MemberValues(read, bytes, t, 0)
    decreases t, 0
  {
    ghost var total := MemberValues(read, bytes, t, 0);
    var members := t.members;
    var res: seq<string> := [];
    PrependNothing(total);
    var k := 0;
    while k < |members|
      invariant k <= |members|
      invariant total == Prepend(res, MemberValues(read, bytes, t, k))
    {
      var v := ComputeDisplay(read, MemberSlice(t, bytes, k), members[k].ty);
      MemberStep(read, bytes, t, k, res, v);
      if v.Failure? {
        return Failure(v.error);
      }
      res := res + [v.value];
      k := k + 1;
    }
    assert res + [] == res;
    r := Success(res);
  }

  // ---------------------------------------------------------------------------
  // drawUninitBytes and drawObjectInline
  // ---------------------------------------------------------------------------

  /** The element id of the byte cell at an address, also what a pointer's data-address refers to. */
  function CellId(address: int): string
  {
    "0x" + DecimalAddressToHex(address)
  }

  /** One piece of the inline view. */
  datatype Cell =
    | Label(text: string, pointsTo: Option<string>)  // a leaf's name; a pointer leaf is a ptr-from with its value as data-address
    | ByteCell(address: int, text: string)          // a bordered byte, element id "0x" + DecimalAddressToHex(address)
    | PadLabel                                      // the "pad" marker in front of padding bytes

  /** The addresses of the byte cells, in order. */
  function Addresses(cells: seq<Cell>): seq<int>
  {
    if cells == [] then []
    else (if cells[0].ByteCell? then [cells[0].address] else []) + Addresses(cells[1..])
  }

  /** The consecutive addresses a, a+1, ..., a+n-1. */
  function Range(a: int, n: nat): (r: seq<int>)
    ensures |r| == n
    decreases n
  {
    if n == 0 then [] else [a] + Range(a + 1, n - 1)
  }

  /** `drawUninitBytes(address, size)`. */
  function DrawUninitBytes(address: int, size: nat): seq<Cell>
  {
    seq(size, i => ByteCell(address + i, "??"))
  }

  /** The byte cells of a scalar leaf: cell i shows characters [2i, 2i+2) of the hex dump s. */
  function LeafBytes(s: string, address: int, size: nat): seq<Cell>
  {
    seq(size, i => ByteCell(address + i, Slice(s, 2 * i, 2 * i + 2)))
  }

  /** How a scalar leaf is drawn from its type, bytes, address and tag. */
  type LeafRenderer = (CType, seq<Byte>, int, string) -> Result<seq<Cell>, DecodeError>

  /**
   * The scalar case of drawObjectInline: the tag (a ptr-from carrying the
   * decoded value when the scalar is a pointer), then one cell per byte;
   * displayValue's errors propagate.
   */
  function LeafCells(t: CType, bytes: seq<Byte>, address: int, e: Endianness, prefix: string): Result<seq<Cell>, DecodeError>
  {
    var s := DisplayBytes(bytes, Hexadecimal, "");
    var v := DisplayValue(bytes, t, e);
    if v.Failure? then Failure(v.error)
    else Success([Label(prefix, if IsPointer(t) then Some(v.value) else None)] + LeafBytes(s, address, t.size))
  }

  /** The leaf renderer of drawObjectInline for a given byte order. */
  function Leaf(e: Endianness): LeafRenderer
  {
    (s, b, a, p) => LeafCells(s, b, a, e, p)
  }

  /** `drawObjectInline(t, bytes, address, endianness, prefix)`: the walk below with the endianness fixed at the leaves. */
  function DrawInline(t: CType, bytes: seq<Byte>, address: int, e: Endianness, prefix: string): Result<seq<Cell>, DecodeError>
  {
    Draw(Leaf(e), t, bytes, address, prefix)
  }

  /** drawObjectInline's walk over the type: structures member by member, arrays element by element, scalars by `leaf`. */
  function Draw(leaf: LeafRenderer, t: CType, bytes: seq<Byte>, address: int, prefix: string): Result<seq<Cell>, DecodeError>
    decreases t, 1
  {
    match t
    case Struct(_, _, _) => InlineMembers(leaf, t, bytes, address, prefix, 0)
    case Array(_, _, _) => InlineElements(leaf, t, bytes, address, prefix, 0)
    case Unknown(_) => Success([])
    case Scalar(_, _, _) => leaf(t, bytes, address, prefix)
  }

  /** The cells of the first part followed by those of the rest; the first error wins, as the first throw does. */
  function Then(first: Result<seq<Cell>, DecodeError>, rest: Result<seq<Cell>, DecodeError>): Result<seq<Cell>, DecodeError>
  {
    if first.Failure? then first
    else if rest.Failure? then rest
    else Success(first.value + rest.value)
  }

  /** The "pad" marker and "??" cells after member k, present only when its padding is positive. */
  function PaddingCells(t: CType, address: int, k: nat): seq<Cell>
    requires t.Struct? && k < |t.members|
  {
    var m := t.members[k];
    var pad := PaddingAfter(t, k);
    if pad > 0 then [PadLabel] + DrawUninitBytes(address + m.relativeAddress + m.ty.size, pad) else []
  }

  /** The cells of members k.. of a structure, each followed by its padding. */
  function InlineMembers(leaf: LeafRenderer, t: CType, bytes: seq<Byte>, address: int, prefix: string, k: nat): Result<seq<Cell>, DecodeError>
    requires t.Struct? && k <= |t.members|
    decreases t, 0, |t.members| - k
  {
    if k == |t.members| then Success([])
    else
      var m := t.members[k];
      var cells := Draw(leaf, m.ty, MemberSlice(t, bytes, k), address + m.relativeAddress, prefix + "." + m.name);
      Then(Then(cells, Success(PaddingCells(t, address, k))), InlineMembers(leaf, t, bytes, address, prefix, k + 1))
  }

  /** Where element i of an array starts: i times the element size, written as i steps of one element. */
  function ElementOffset(t: CType, i: nat): nat
    requires t.Array?
    decreases i
  {
    if i == 0 then 0 else ElementOffset(t, i - 1) + t.elementType.size
  }

  /** The bytes of element i of an array: [i*es, (i+1)*es). */
  function ElementBytes(t: CType, bytes: seq<Byte>, i: nat): seq<Byte>
    requires t.Array?
  {
    Slice(bytes, ElementOffset(t, i), ElementOffset(t, i + 1))
  }

  /** The tag of element i: prefix + "[" + i + "]". */
  function ElementTag(prefix: string, i: nat): string
  {
    prefix + "[" + NumberToString(i, 10) + "]"
  }

  /** The cells of elements i.. of an array. */
  function InlineElements(leaf: LeafRenderer, t: CType, bytes: seq<Byte>, address: int, prefix: string, i: nat): Result<seq<Cell>, DecodeError>
    requires t.Array? && i <= t.length
    decreases t, 0, t.length - i
  {
    if i == t.length then Success([])
    else
      var cells := Draw(leaf, t.elementType, ElementBytes(t, bytes, i), address + ElementOffset(t, i), ElementTag(prefix, i));
      Then(cells, InlineElements(leaf, t, bytes, address, prefix, i + 1))
  }

  // ---------------------------------------------------------------------------
  // visualizeObject
  // ---------------------------------------------------------------------------

  datatype View =
    | StructView(rows: seq<Row>)
    | ArrayView(elements: seq<View>)
    | ScalarView(address: int, nibbles: seq<string>)  // "0x" + DecimalAddressToHex(address), then one key per hex digit
    | EmptyView

  datatype Row =
    | MemberRow(name: string, view: View)
    | PaddingRow(address: int, marks: nat)  // "0x" + DecimalAddressToHex(address), then `marks` question marks

  /** The characters s[0], ..., s[n-1], one per key; an index past the end shows nothing. */
  function Nibbles(s: string, n: nat): seq<string>
  {
    seq(n, i => if 0 <= i < |s| then [s[i]] else "")
  }

  /** `visualizeObject(t, bytes, endianness, address)`. */
  function Visualize(t: CType, bytes: seq<Byte>, address: int): View
    decreases t, 1
  {
    match t
    case Struct(_, _, _) => StructView(VisualRows(t, bytes, address, 0))
    case Array(_, _, _) => ArrayView(VisualElements(t, bytes, address, 0))
    case Unknown(_) => EmptyView
    case Scalar(size, _, _) => ScalarView(address, Nibbles(DisplayBytes(bytes, Hexadecimal, ""), 2 * size))
  }

  function VisualRows(t: CType, bytes: seq<Byte>, address: int, k: nat): seq<Row>
    requires t.Struct? && k <= |t.members|
    decreases t, 0, |t.members| - k
  {
    if k == |t.members| then []
    else
      var m := t.members[k];
      var curr := address + m.relativeAddress;
      var pad := PaddingAfter(t, k);
      [MemberRow(m.name, Visualize(m.ty, MemberSlice(t, bytes, k), curr))]
      + (if pad > 0 then [PaddingRow(curr + m.ty.size, 2 * pad)] else [])
      + VisualRows(t, bytes, address, k + 1)
  }

  function VisualElements(t: CType, bytes: seq<Byte>, address: int, i: nat): seq<View>
    requires t.Array? && i <= t.length
    decreases t, 0, t.length - i
  {
    if i == t.length then []
    else
      [Visualize(t.elementType, ElementBytes(t, bytes, i), address + ElementOffset(t, i))]
      + VisualElements(t, bytes, address, i + 1)
  }
}
