/**
 * The helpers of src/utils.ts: its own copy of decimalAddressToHex and hexDump,
 * which shows the last `sizeof` hex digits of an object's raw value.
 */
module HexDump {
  import opened Wrappers
  import opened JsText
  import HexFormat

  /** The string hexDump cuts from: eight zeros, then the value's upper-case hex. */
  function PaddedHex(v: int): string
  {
    "00000000" + ToUpperCase(NumberToString(v, 16))
  }

  /** `hexDump`: "-" for an object without a raw value, else the last `sizeof` characters of PaddedHex. */
  function HexDump(rawValue: Option<int>, sizeof: int): string
  {
    match rawValue
    case None => "-"
    case Some(v) => SliceFrom(PaddedHex(v), -sizeof)
  }

  /** The upper-case hex digits of a non-negative value, without padding. */
  function HexDigits(v: nat): string
  {
    ToUpperCase(RadixDigits(v, 16))
  }

  /** src/utils.ts repeats decimalAddressToHex; it is hexDump of the address with sizeof 8. */
  lemma AddressHexIsDumpOfEight(addr: int)
    ensures HexFormat.DecimalAddressToHex(addr) == HexDump(Some(addr), 8)
    ensures addr >= 0 ==> |HexDump(Some(addr), 8)| == 8
  {
    if addr >= 0 {
      HexFormat.AddressHexShape(addr);
    }
  }

  lemma PaddedHexShape(v: nat)
    ensures PaddedHex(v) == Repeat('0', 8) + HexDigits(v)
    ensures AllUpperDigits(PaddedHex(v), 16) && AllDigits(PaddedHex(v), 16)
    ensures ValueOf(PaddedHex(v), 16) == v
  {
    var digits := HexDigits(v);
    assert "00000000" == Repeat('0', 8);
    UpperRadixDigits(v, 16);
    ZeroPaddedValue(8, digits, 16);
    forall i | 0 <= i < |PaddedHex(v)|
      ensures IsUpperDigit(PaddedHex(v)[i], 16)
    {
      if i >= 8 {
        assert PaddedHex(v)[i] == digits[i - 8];
      }
    }
  }

  /**
   * For a non-negative value and 1 <= sizeof <= 8 + (number of its digits), the
   * dump is exactly sizeof upper-case hex digits worth the value modulo 16^sizeof.
   */
  lemma HexDumpWidth(v: nat, sizeof: int)
    requires 1 <= sizeof <= 8 + |HexDigits(v)|
    ensures |HexDump(Some(v), sizeof)| == sizeof
    ensures AllUpperDigits(HexDump(Some(v), sizeof), 16)
    ensures AllDigits(HexDump(Some(v), sizeof), 16)
    ensures ValueOf(HexDump(Some(v), sizeof), 16) == v % Pow(16, sizeof)
  {
    var p := PaddedHex(v);
    PaddedHexShape(v);
    LastDigitsMod(p, sizeof, 16);
    assert HexDump(Some(v), sizeof) == p[|p| - sizeof..];
  }

  /** With room for all digits, the dump is the digits left-padded with zeros to sizeof characters. */
  lemma HexDumpPadsShortValues(v: nat, sizeof: int)
    requires |HexDigits(v)| <= sizeof <= 8 + |HexDigits(v)|
    ensures HexDump(Some(v), sizeof) == Repeat('0', sizeof - |HexDigits(v)|) + HexDigits(v)
  {
    var p, d := PaddedHex(v), HexDigits(v);
    PaddedHexShape(v);
    var r := HexDump(Some(v), sizeof);
    assert r == p[|p| - sizeof..];
    assert r == Repeat('0', sizeof - |d|) + d;
  }

  /** With fewer places than digits, the high-order digits are dropped and the last sizeof kept. */
  lemma HexDumpTruncatesLongValues(v: nat, sizeof: int)
    requires 1 <= sizeof < |HexDigits(v)|
    ensures HexDump(Some(v), sizeof) == HexDigits(v)[|HexDigits(v)| - sizeof..]
  {
    var p, d := PaddedHex(v), HexDigits(v);
    PaddedHexShape(v);
    assert p[|p| - sizeof..] == d[|d| - sizeof..];
  }

  /** An object without a raw value dumps as "-", whatever its size. */
  lemma HexDumpNoValue(sizeof: int)
    ensures HexDump(None, sizeof) == "-"
  {
  }

  /** slice(-0) is slice(0): a zero sizeof shows the whole padded string, as does one longer than it. */
  lemma HexDumpWholeString(v: int, sizeof: int)
    requires sizeof == 0 || sizeof >= |PaddedHex(v)|
    ensures HexDump(Some(v), sizeof) == PaddedHex(v)
    ensures |HexDump(Some(v), sizeof)| >= 9
  {
  }
}
