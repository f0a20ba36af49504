/**
 * The error highlighting of src/viz/components/RuntimeObject.tsx and
 * src/viz/components/TemporaryObject.tsx: a pointer whose target is not a
 * multiple of the referenced type's alignment, or that points to an address
 * the effective-type table does not know, is flagged; a runtime object is
 * also flagged when uninitialised; the tooltip names the first problem found.
 *
 * Both components read the pointer back from displayValue's text with
 * parseInt(value, 16), so the check sees the address as displayed: "NULL"
 * parses to NaN, and "0x" + eight hex digits to the address modulo 16^8.
 */
module Anomalies {
  import opened Wrappers
  import opened JsText
  import opened CTypes
  import opened HexFormat
  import opened ObjectView

  /** Alignment of a short, which the interpreter library uses for function pointers. */
  const SHRT_ALIGN: nat := 2

  /** The alignment a pointer's target must have: the referenced object type's, SHRT_ALIGN for a function, else 0. */
  function RequiredAlignment(r: Referent): nat
  {
    match r
    case ObjectReferent(alignment) => alignment
    case FunctionReferent => SHRT_ALIGN
    case OtherReferent => 0
  }

  /** JavaScript's `%`: the remainder takes the sign of the dividend. */
  function JsRem(a: int, b: int): (r: int)
    requires b > 0
    ensures a >= 0 ==> r == a % b
    ensures a < 0 ==> -b < r <= 0
  {
    if a >= 0 then a % b else -((-a) % b)
  }

  datatype PointerFlags = PointerFlags(misaligned: bool, pointsToUnalloc: bool)

  /**
   * The check both components share: for a pointer, parse the displayed value
   * as hexadecimal; it is misaligned when `ptrValue % alignment > 0` (false
   * for NaN and for alignment 0), and points to unallocated memory when it is
   * a number other than 0, a runtime view exists, and the value is not a key
   * of its effective-type table. `runtime` is that table's key set, or None
   * without a runtime view.
   */
  function CheckPointer(t: CType, value: string, runtime: Option<set<int>>): PointerFlags
  {
    if !IsPointer(t) then PointerFlags(false, false)
    else
      var ptr := ParseIntHex(value);
      var alignment := RequiredAlignment(t.kind.referent);
      PointerFlags(
        ptr.Some? && alignment > 0 && JsRem(ptr.value, alignment) > 0,
        ptr.Some? && ptr.value != 0 && runtime.Some? && ptr.value !in runtime.value)
  }

  /** The flags a component computes and the tooltip it attaches when one is raised. */
  datatype ObjectStatus = ObjectStatus(misaligned: bool, pointsToUnalloc: bool, hasErr: bool, tooltip: Option<string>)

  /** The runtime object's tooltip: uninitialised first, then misalignment, then unallocated memory. */
  function RuntimeTooltip(initialized: bool, misaligned: bool, pointsToUnalloc: bool): string
  {
    if !initialized then "uninitialized"
    else if misaligned then "unaligned pointer"
    else if pointsToUnalloc then "pointer to unallocated memory"
    else "unknown error"
  }

  /** The temporary object's tooltip: misalignment first, then unallocated memory. */
  function TemporaryTooltip(misaligned: bool, pointsToUnalloc: bool): string
  {
    if misaligned then "unaligned pointer"
    else if pointsToUnalloc then "pointer to unallocated memory"
    else "unknown error"
  }

  /** RuntimeObject's flags; a displayValue error is thrown while rendering, a Failure here. */
  function RuntimeObjectStatus(t: CType, bytes: seq<Byte>, e: Endianness, initialized: bool, runtime: Option<set<int>>)
    : Result<ObjectStatus, DecodeError>
  {
    var value :- DisplayValue(bytes, t, e);
    var f := CheckPointer(t, value, runtime);
    var hasErr := f.misaligned || !initialized || f.pointsToUnalloc;
    Success(ObjectStatus(f.misaligned, f.pointsToUnalloc, hasErr,
                         if hasErr then Some(RuntimeTooltip(initialized, f.misaligned, f.pointsToUnalloc)) else None))
  }

  /** A temporary's flags, plus the ptr-from class and the data-address it carries. */
  datatype TemporaryView = TemporaryView(status: ObjectStatus, ptrFrom: bool, dataAddress: Option<string>)

  /** TemporaryObject's flags and pointer tagging; a temporary has no initialisation state to consult. */
  function TemporaryObjectStatus(t: CType, bytes: seq<Byte>, e: Endianness, runtime: Option<set<int>>)
    : Result<TemporaryView, DecodeError>
  {
    var value :- DisplayValue(bytes, t, e);
    var f := CheckPointer(t, value, runtime);
    var hasErr := f.misaligned || f.pointsToUnalloc;
    Success(TemporaryView(
      ObjectStatus(f.misaligned, f.pointsToUnalloc, hasErr,
                   if hasErr then Some(TemporaryTooltip(f.misaligned, f.pointsToUnalloc)) else None),
      IsPointer(t),
      if IsPointer(t) then Some(value) else None))
  }

  // ---------------------------------------------------------------------------
  // Properties
  // ---------------------------------------------------------------------------

  lemma NullIsNaN()
    ensures ParseIntHex("NULL") == None
  {
    assert !IsDigit('N', 16);
    assert DigitPrefixLength("NULL", 16) == 0;
  }

  /** A non-pointer is never flagged, whatever its text. */
  lemma NonPointersUnflagged(t: CType, value: string, runtime: Option<set<int>>)
    requires !IsPointer(t)
    ensures CheckPointer(t, value, runtime) == PointerFlags(false, false)
  {
  }

  /**
   * A pointer's flags follow from the address its bytes hold: NULL (zero) is
   * never flagged; otherwise, with a the address as displayed (the value
   * modulo 16^8), it is misaligned exactly when the required alignment is
   * positive and does not divide a, and points to unallocated memory exactly
   * when a is not 0, a runtime view exists and a is not in its table.
   */
  lemma PointerFlagsOfAddress(t: CType, bytes: seq<Byte>, e: Endianness, runtime: Option<set<int>>)
    requires IsPointer(t) && !t.signed && |bytes| == t.size
    ensures DisplayValue(bytes, t, e).Success?
    ensures var n := BytesToBigint(bytes, false, e);
            var a := n % ADDRESS_SPAN;
            var alignment := RequiredAlignment(t.kind.referent);
            var f := CheckPointer(t, DisplayValue(bytes, t, e).value, runtime);
            && (n == 0 ==> f == PointerFlags(false, false))
            && (n != 0 ==> f.misaligned == (alignment > 0 && a % alignment != 0))
            && (n != 0 ==> f.pointsToUnalloc == (a != 0 && runtime.Some? && a !in runtime.value))
  {
    var n := BytesToBigint(bytes, false, e);
    assert DisplayValue(bytes, t, e) == ScalarText(n, t.kind);
    if n == 0 {
      NullIsNaN();
    } else {
      ParseAddressText(n);
    }
  }

  /**
   * RuntimeObject: it is flagged exactly when misaligned, uninitialised or
   * pointing to unallocated memory, and then its tooltip names the first of
   * these in that order; "unknown error" is never shown.
   */
  lemma RuntimeTooltipPrecedence(t: CType, bytes: seq<Byte>, e: Endianness, initialized: bool, runtime: Option<set<int>>)
    requires RuntimeObjectStatus(t, bytes, e, initialized, runtime).Success?
    ensures var s := RuntimeObjectStatus(t, bytes, e, initialized, runtime).value;
            && (s.hasErr <==> s.misaligned || !initialized || s.pointsToUnalloc)
            && (s.tooltip.None? <==> !s.hasErr)
            && (s.tooltip == Some("uninitialized") <==> !initialized)
            && (s.tooltip == Some("unaligned pointer") <==> initialized && s.misaligned)
            && (s.tooltip == Some("pointer to unallocated memory") <==> initialized && !s.misaligned && s.pointsToUnalloc)
            && s.tooltip != Some("unknown error")
  {
    var s := RuntimeObjectStatus(t, bytes, e, initialized, runtime).value;
    assert "uninitialized" != "unaligned pointer" && "uninitialized" != "pointer to unallocated memory";
    assert "unaligned pointer" != "pointer to unallocated memory";
  }

  /**
   * TemporaryObject: it is flagged exactly when misaligned or pointing to
   * unallocated memory, misalignment is named first, "unknown error" is never
   * shown, and only pointers are flagged.
   */
  lemma TemporaryTooltipPrecedence(t: CType, bytes: seq<Byte>, e: Endianness, runtime: Option<set<int>>)
    requires TemporaryObjectStatus(t, bytes, e, runtime).Success?
    ensures var s := TemporaryObjectStatus(t, bytes, e, runtime).value.status;
            && (s.hasErr <==> s.misaligned || s.pointsToUnalloc)
            && (s.hasErr ==> IsPointer(t))
            && (s.tooltip.None? <==> !s.hasErr)
            && (s.tooltip == Some("unaligned pointer") <==> s.misaligned)
            && (s.tooltip == Some("pointer to unallocated memory") <==> !s.misaligned && s.pointsToUnalloc)
            && s.tooltip != Some("unknown error")
  {
    assert "unaligned pointer" != "pointer to unallocated memory";
  }

  /** The two components agree on everything for an initialised object: same flags, same tooltip. */
  lemma TemporaryMatchesInitializedRuntime(t: CType, bytes: seq<Byte>, e: Endianness, runtime: Option<set<int>>)
    ensures TemporaryObjectStatus(t, bytes, e, runtime).Success? <==> RuntimeObjectStatus(t, bytes, e, true, runtime).Success?
    ensures TemporaryObjectStatus(t, bytes, e, runtime).Success? ==>
              TemporaryObjectStatus(t, bytes, e, runtime).value.status == RuntimeObjectStatus(t, bytes, e, true, runtime).value
  {
  }

  lemma SmallRemainder(x: int, m: int)
    requires 0 <= x < m
    ensures x % m == x
  {
  }

  /** A byte cell's id reads back, through parseInt(., 16), as its address modulo 16^8. */
  lemma CellIdParses(address: nat)
    ensures ParseIntHex(CellId(address)) == Some(address % ADDRESS_SPAN)
  {
    ParseAddressText(address);
  }

  /** A temporary that is not a pointer carries neither the ptr-from class nor a data-address. */
  lemma NonPointerUntagged(t: CType, bytes: seq<Byte>, e: Endianness, runtime: Option<set<int>>)
    requires !IsPointer(t) && TemporaryObjectStatus(t, bytes, e, runtime).Success?
    ensures !TemporaryObjectStatus(t, bytes, e, runtime).value.ptrFrom
    ensures TemporaryObjectStatus(t, bytes, e, runtime).value.dataAddress.None?
    ensures !TemporaryObjectStatus(t, bytes, e, runtime).value.status.hasErr
  {
  }

  /**
   * A pointer temporary is a ptr-from and its data-address is its displayed
   * value: "NULL" for zero, and otherwise the id of the byte cell at that
   * address, which parses back to the address when it is below 16^8.
   */
  lemma PointerTag(t: CType, bytes: seq<Byte>, e: Endianness, runtime: Option<set<int>>)
    requires IsPointer(t) && !t.signed && |bytes| == t.size
    ensures TemporaryObjectStatus(t, bytes, e, runtime).Success?
    ensures var v := TemporaryObjectStatus(t, bytes, e, runtime).value;
            var n := BytesToBigint(bytes, false, e);
            && v.ptrFrom
            && (n == 0 ==> v.dataAddress == Some("NULL"))
            && (n > 0 ==> v.dataAddress == Some(CellId(n)))
            && (0 < n < ADDRESS_SPAN ==> ParseIntHex(v.dataAddress.value) == Some(n))
  {
    var n := BytesToBigint(bytes, false, e);
    assert DisplayValue(bytes, t, e) == ScalarText(n, t.kind);
    if 0 < n < ADDRESS_SPAN {
      CellIdParses(n);
      SmallRemainder(n, ADDRESS_SPAN);
    }
  }
}
