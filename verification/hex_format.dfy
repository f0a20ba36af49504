/**
 * The byte and address formatters of src/utils/utils.ts: decimalAddressToHex,
 * the fixed-width identity every rendered byte and allocation carries, and
 * displayBytes, the binary or hexadecimal dump of an object representation.
 */
module HexFormat {
  import opened Wrappers
  import opened JsText

  /** Number of distinct eight-digit hexadecimal strings, 16^8. */
  const ADDRESS_SPAN: nat := 0x1_0000_0000

  lemma AddressSpanIsPow()
    ensures Pow(16, 8) == ADDRESS_SPAN
  {
    assert Pow(16, 2) == 256;
    assert Pow(16, 4) == 16 * (16 * Pow(16, 2));
    assert Pow(16, 6) == 16 * (16 * Pow(16, 4));
    assert Pow(16, 8) == 16 * (16 * Pow(16, 6));
  }

  /** `decimalAddressToHex`: the address in hexadecimal, upper case, zero padded, cut to its last eight characters. */
  function DecimalAddressToHex(addr: int): string
  {
    SliceFrom("00000000" + ToUpperCase(NumberToString(addr, 16)), -8)
  }

  /** A non-negative address becomes exactly eight upper-case hex digits worth the address modulo 16^8. */
  lemma AddressHexShape(addr: nat)
    ensures |DecimalAddressToHex(addr)| == 8
    ensures AllUpperDigits(DecimalAddressToHex(addr), 16)
    ensures AllDigits(DecimalAddressToHex(addr), 16)
    ensures ValueOf(DecimalAddressToHex(addr), 16) == addr % ADDRESS_SPAN
  {
    var digits := ToUpperCase(RadixDigits(addr, 16));
    var padded := "00000000" + digits;
    assert "00000000" == Repeat('0', 8);
    UpperRadixDigits(addr, 16);
    ZeroPaddedValue(8, digits, 16);
    LastDigitsMod(padded, 8, 16);
    AddressSpanIsPow();
    assert DecimalAddressToHex(addr) == padded[|padded| - 8..];
    forall i | 0 <= i < 8
      ensures IsUpperDigit(DecimalAddressToHex(addr)[i], 16)
    {
      var j := |padded| - 8 + i;
      assert DecimalAddressToHex(addr)[i] == padded[j];
      if j >= 8 {
        assert padded[j] == digits[j - 8];
      }
    }
  }

  /** Addresses below 16^8 read back from their identity, so distinct ones get distinct identities. */
  lemma AddressHexRoundTrip(a: nat, b: nat)
    requires a < ADDRESS_SPAN && b < ADDRESS_SPAN
    ensures AllDigits(DecimalAddressToHex(a), 16)
    ensures ValueOf(DecimalAddressToHex(a), 16) == a
    ensures DecimalAddressToHex(a) == DecimalAddressToHex(b) ==> a == b
  {
    AddressHexShape(a);
    AddressHexShape(b);
  }

  /** parseInt(s, 16) reads the "0x"-prefixed identity back as the address modulo 16^8. */
  lemma ParseAddressText(addr: nat)
    ensures ParseIntHex("0x" + DecimalAddressToHex(addr)) == Some(addr % ADDRESS_SPAN)
  {
    var h := DecimalAddressToHex(addr);
    AddressHexShape(addr);
    var s := "0x" + h;
    assert s[2..] == h;
    var k := DigitPrefixLength(h, 16);
    assert k == 8;
    assert h[..k] == h;
  }

  // ---------------------------------------------------------------------------
  // displayBytes
  // ---------------------------------------------------------------------------

  /** The display option; the source tests for the string "binary" and treats everything else as hexadecimal. */
  datatype BytesDisplayOption = Binary | Hexadecimal

  function Radix(opt: BytesDisplayOption): nat
  {
    if opt == Binary then 2 else 16
  }

  function Width(opt: BytesDisplayOption): nat
  {
    if opt == Binary then 8 else 2
  }

  /** One byte as `i.toString(base).toUpperCase().padStart(padding, "0")`. */
  function ByteChunk(b: nat, opt: BytesDisplayOption): string
  {
    PadStart(ToUpperCase(RadixDigits(b, Radix(opt))), Width(opt), '0')
  }

  function Chunks(bytes: seq<nat>, opt: BytesDisplayOption): (r: seq<string>)
    ensures |r| == |bytes|
  {
    seq(|bytes|, i requires 0 <= i < |bytes| => ByteChunk(bytes[i], opt))
  }

  /** `displayBytes(bytes, opt, sep)`. */
  function DisplayBytes(bytes: seq<nat>, opt: BytesDisplayOption, sep: string): string
  {
    Join(Chunks(bytes, opt), sep)
  }

  predicate AllBytes(bytes: seq<nat>)
  {
    forall i :: 0 <= i < |bytes| ==> bytes[i] < 256
  }

  /** A byte becomes exactly Width(opt) upper-case digits of Radix(opt) whose value is the byte. */
  lemma ByteChunkShape(b: nat, opt: BytesDisplayOption)
    requires b < 256
    ensures |ByteChunk(b, opt)| == Width(opt)
    ensures AllUpperDigits(ByteChunk(b, opt), Radix(opt))
    ensures AllDigits(ByteChunk(b, opt), Radix(opt))
    ensures ValueOf(ByteChunk(b, opt), Radix(opt)) == b
  {
    var base, w := Radix(opt), Width(opt);
    var digits := ToUpperCase(RadixDigits(b, base));
    if opt == Binary {
      assert Pow(2, 8) == 256 by {
        assert Pow(2, 4) == 16;
      }
    } else {
      assert Pow(16, 2) == 256;
    }
    RadixLength(b, base, w);
    UpperRadixDigits(b, base);
    if |digits| < w {
      var c := ByteChunk(b, opt);
      assert c == Repeat('0', w - |digits|) + digits;
      ZeroPaddedValue(w - |digits|, digits, base);
      forall i | 0 <= i < w
        ensures IsUpperDigit(c[i], base)
      {
        if i >= w - |digits| {
          assert c[i] == digits[i - (w - |digits|)];
        }
      }
    }
  }

  lemma JoinEmptySep(parts: seq<string>)
    requires |parts| > 0
    ensures Join(parts, "") == parts[0] + Join(parts[1..], "")
  {
  }

  lemma {:induction false} JoinLength(parts: seq<string>, sep: string, w: nat)
    requires forall i :: 0 <= i < |parts| ==> |parts[i]| == w
    ensures |Join(parts, sep)| == if |parts| == 0 then 0 else |parts| * w + (|parts| - 1) * |sep|
    decreases |parts|
  {
    if |parts| > 1 {
      JoinLength(parts[1..], sep, w);
    }
  }

  /**
   * The dump has one chunk of Width(opt) characters per byte and one separator
   * between neighbours, and nothing else.
   */
  lemma DisplayBytesLength(bytes: seq<nat>, opt: BytesDisplayOption, sep: string)
    requires AllBytes(bytes)
    ensures |DisplayBytes(bytes, opt, sep)|
         == if |bytes| == 0 then 0 else |bytes| * Width(opt) + (|bytes| - 1) * |sep|
  {
    forall i | 0 <= i < |bytes|
      ensures |Chunks(bytes, opt)[i]| == Width(opt)
    {
      ByteChunkShape(bytes[i], opt);
    }
    JoinLength(Chunks(bytes, opt), sep, Width(opt));
  }

  lemma SliceOfConcat(c: string, rest: string, a: nat, b: nat)
    requires |c| <= a <= b <= |c| + |rest|
    ensures (c + rest)[a..b] == rest[a - |c|..b - |c|]
  {
  }

  lemma ShiftByOne(i: nat, w: nat)
    requires i > 0
    ensures i * w == w + (i - 1) * w && (i + 1) * w == w + i * w
  {
  }

  /** Joining width-w parts with no separator puts part i at [i*w, (i+1)*w). */
  lemma {:induction false} JoinedPartAt(parts: seq<string>, w: nat, i: nat)
    requires forall k :: 0 <= k < |parts| ==> |parts[k]| == w
    requires i < |parts|
    ensures |Join(parts, "")| == |parts| * w
    ensures (i + 1) * w <= |parts| * w
    ensures Join(parts, "")[i * w..(i + 1) * w] == parts[i]
    decreases i
  {
    JoinLength(parts, "", w);
    JoinEmptySep(parts);
    var c, rest := parts[0], Join(parts[1..], "");
    MulMono(i + 1, |parts|, w);
    if i > 0 {
      JoinedPartAt(parts[1..], w, i - 1);
      ShiftByOne(i, w);
      SliceOfConcat(c, rest, i * w, (i + 1) * w);
    } else {
      assert (c + rest)[0..w] == c;
    }
  }

  /** Without a separator, the chunk of byte i occupies characters [i*w, (i+1)*w) of the dump. */
  lemma ChunkAt(bytes: seq<nat>, opt: BytesDisplayOption, i: nat)
    requires AllBytes(bytes) && i < |bytes|
    ensures |DisplayBytes(bytes, opt, "")| == |bytes| * Width(opt)
    ensures (i + 1) * Width(opt) <= |bytes| * Width(opt)
    ensures DisplayBytes(bytes, opt, "")[i * Width(opt)..(i + 1) * Width(opt)] == ByteChunk(bytes[i], opt)
  {
    forall k | 0 <= k < |bytes|
      ensures |Chunks(bytes, opt)[k]| == Width(opt)
    {
      ByteChunkShape(bytes[k], opt);
    }
    JoinedPartAt(Chunks(bytes, opt), Width(opt), i);
  }

  /** Reads a separator-less dump back: cut into Width(opt)-sized chunks and parse each. */
  function ParseChunks(s: string, opt: BytesDisplayOption): Option<seq<nat>>
    decreases |s|
  {
    var w := Width(opt);
    if |s| == 0 then Some([])
    else if |s| < w || !AllDigits(s[..w], Radix(opt)) then None
    else
      match ParseChunks(s[w..], opt)
      case None => None
      case Some(rest) => Some([ValueOf(s[..w], Radix(opt))] + rest)
  }

  /** With an empty separator the dump is lossless: parsing it back gives the original bytes. */
  lemma {:induction false} DisplayBytesRoundTrip(bytes: seq<nat>, opt: BytesDisplayOption)
    requires AllBytes(bytes)
    ensures ParseChunks(DisplayBytes(bytes, opt, ""), opt) == Some(bytes)
    decreases |bytes|
  {
    if |bytes| > 0 {
      var w := Width(opt);
      var c := ByteChunk(bytes[0], opt);
      var rest := DisplayBytes(bytes[1..], opt, "");
      ByteChunkShape(bytes[0], opt);
      JoinEmptySep(Chunks(bytes, opt));
      assert Chunks(bytes, opt)[1..] == Chunks(bytes[1..], opt);
      var s := DisplayBytes(bytes, opt, "");
      assert s == c + rest;
      assert s[..w] == c && s[w..] == rest;
      DisplayBytesRoundTrip(bytes[1..], opt);
      assert [bytes[0]] + bytes[1..] == bytes;
    }
  }
}
