/**
 * The JavaScript string primitives the formatting code is built from:
 * String.prototype.slice, padStart and toUpperCase, Array.prototype.join,
 * Number.prototype.toString(radix) and parseInt(s, 16), together with the
 * positional value of a digit string, which states what the formatters mean.
 */
module JsText {
  import opened Wrappers

  function Pow(b: nat, k: nat): (r: nat)
    ensures b >= 1 ==> r >= 1
  {
    if k == 0 then 1 else b * Pow(b, k - 1)
  }

  // ---------------------------------------------------------------------------
  // slice, padStart, join, toUpperCase
  // ---------------------------------------------------------------------------

  /** The position slice uses for an argument: a negative one counts from the end; both are clamped to [0, len]. */
  function ClampIndex(len: nat, k: int): (r: nat)
    ensures r <= len
    ensures 0 <= k <= len ==> r == k
    ensures k < 0 && len + k >= 0 ==> r == len + k
  {
    if k < 0 then (if len + k < 0 then 0 else len + k)
    else if k > len then len
    else k
  }

  /** String.prototype.slice(from, to) and Array.prototype.slice(from, to). */
  function Slice<T>(s: seq<T>, from: int, to: int): (r: seq<T>)
    ensures 0 <= from <= to <= |s| ==> r == s[from..to]
    ensures |r| <= |s|
  {
    var a := ClampIndex(|s|, from);
    var b := ClampIndex(|s|, to);
    if a < b then s[a..b] else []
  }

  /** String.prototype.slice(from) with no end argument. */
  function SliceFrom<T>(s: seq<T>, from: int): (r: seq<T>)
    ensures from < 0 && |s| + from >= 0 ==> r == s[|s| + from..]
    ensures from == 0 || |s| + from < 0 ==> r == s
  {
    s[ClampIndex(|s|, from)..]
  }

  function Repeat(c: char, n: nat): (r: string)
    ensures |r| == n
    ensures forall i :: 0 <= i < n ==> r[i] == c
  {
    if n == 0 then [] else [c] + Repeat(c, n - 1)
  }

  /** String.prototype.padStart(width, fill) with a one-character filler. */
  function PadStart(s: string, width: int, fill: char): (r: string)
    ensures |s| >= width ==> r == s
    ensures |s| < width ==> |r| == width && r[width - |s|..] == s
  {
    if |s| >= width then s else Repeat(fill, width - |s|) + s
  }

  /** Array.prototype.join(sep) over strings. */
  function Join(parts: seq<string>, sep: string): string
  {
    if |parts| == 0 then ""
    else if |parts| == 1 then parts[0]
    else parts[0] + sep + Join(parts[1..], sep)
  }

  /** `Array.prototype.reverse`, as a value. */
  function Reverse<T>(s: seq<T>): (r: seq<T>)
    ensures |r| == |s|
    ensures forall i :: 0 <= i < |s| ==> r[i] == s[|s| - 1 - i]
  {
    seq(|s|, i requires 0 <= i < |s| => s[|s| - 1 - i])
  }

  lemma ReverseReverse<T>(s: seq<T>)
    ensures Reverse(Reverse(s)) == s
  {
  }

  /** String.prototype.toUpperCase on one character; only ASCII letters reach it here. */
  function UpperChar(c: char): char
  {
    if 'a' <= c <= 'z' then (c as int - 32) as char else c
  }

  function ToUpperCase(s: string): (r: string)
    ensures |r| == |s|
  {
    seq(|s|, i requires 0 <= i < |s| => UpperChar(s[i]))
  }

  lemma ToUpperCaseConcat(a: string, b: string)
    ensures ToUpperCase(a + b) == ToUpperCase(a) + ToUpperCase(b)
  {
  }

  // ---------------------------------------------------------------------------
  // Digits: toString(radix), their value, parseInt
  // ---------------------------------------------------------------------------

  /** A digit as toString(radix) writes it: 0-9, then lower-case letters. */
  function DigitChar(d: nat): char
    requires d < 36
  {
    if d < 10 then ('0' as int + d) as char else ('a' as int + d - 10) as char
  }

  /** Number.prototype.toString(radix) of a non-negative integer: no leading zero, "0" for zero. */
  function RadixDigits(n: nat, base: nat): (r: string)
    requires 2 <= base <= 36
    ensures |r| >= 1
    decreases n
  {
    if n < base then [DigitChar(n)]
    else RadixDigits(n / base, base) + [DigitChar(n % base)]
  }

  /** Number.prototype.toString(radix) (and BigInt's) of an integer: a minus sign before the magnitude. */
  function NumberToString(n: int, base: nat): string
    requires 2 <= base <= 36
  {
    if n < 0 then "-" + RadixDigits(-n, base) else RadixDigits(n, base)
  }

  /** The value parseInt gives a character in any radix up to 36, or -1 when it is no digit. */
  function DigitOf(c: char): int
  {
    if '0' <= c <= '9' then c as int - '0' as int
    else if 'a' <= c <= 'z' then c as int - 'a' as int + 10
    else if 'A' <= c <= 'Z' then c as int - 'A' as int + 10
    else -1
  }

  predicate IsDigit(c: char, base: nat)
  {
    0 <= DigitOf(c) < base
  }

  /** A digit that is not a lower-case letter: what the upper-casing formatters emit. */
  predicate IsUpperDigit(c: char, base: nat)
  {
    IsDigit(c, base) && !('a' <= c <= 'z')
  }

  predicate AllDigits(s: string, base: nat)
  {
    forall i :: 0 <= i < |s| ==> IsDigit(s[i], base)
  }

  predicate AllUpperDigits(s: string, base: nat)
  {
    forall i :: 0 <= i < |s| ==> IsUpperDigit(s[i], base)
  }

  /** Positional value of a digit string, most significant digit first. */
  function ValueOf(s: string, base: nat): nat
    requires AllDigits(s, base)
  {
    if s == [] then 0 else ValueOf(s[..|s| - 1], base) * base + DigitOf(s[|s| - 1])
  }

  /** Length of the longest prefix of s made of digits of the radix. */
  function DigitPrefixLength(s: string, base: nat): (k: nat)
    ensures k <= |s| && AllDigits(s[..k], base)
    ensures k < |s| ==> !IsDigit(s[k], base)
  {
    if s == [] || !IsDigit(s[0], base) then 0
    else
      var k := 1 + DigitPrefixLength(s[1..], base);
      assert s[..k] == [s[0]] + s[1..][..k - 1];
      k
  }

  /**
   * parseInt(s, 16): an optional sign, an optional "0x" or "0X", then the longest
   * run of hexadecimal digits; NaN (None) when that run is empty. Leading white
   * space is not stripped: no string handed to it here starts with any.
   */
  function ParseIntHex(s: string): Option<int>
  {
    var neg := |s| > 0 && s[0] == '-';
    var t := if |s| > 0 && (s[0] == '-' || s[0] == '+') then s[1..] else s;
    var u := if |t| >= 2 && t[0] == '0' && (t[1] == 'x' || t[1] == 'X') then t[2..] else t;
    var k := DigitPrefixLength(u, 16);
    if k == 0 then None
    else
      var v: int := ValueOf(u[..k], 16);
      Some(if neg then -v else v)
  }

  // ---------------------------------------------------------------------------
  // Arithmetic helpers
  // ---------------------------------------------------------------------------

  lemma MulMono(a: int, b: int, c: nat)
    requires a <= b
    ensures a * c <= b * c
  {
  }

  lemma ModOfSum(q: nat, m: nat, r: nat)
    requires 0 <= r < m
    ensures (q * m + r) % m == r
    ensures (q * m + r) / m == q
  {
    var x := q * m + r;
    var d := x / m;
    assert x == d * m + x % m;
    if d < q {
      MulMono(d + 1, q, m);
      assert false;
    } else if d > q {
      MulMono(q + 1, d, m);
      assert false;
    }
  }

  lemma DivBound(n: nat, b: nat, p: nat)
    requires b > 0 && n < b * p
    ensures n / b < p
  {
    if n / b >= p {
      MulMono(p, n / b, b);
      assert false;
    }
  }

  lemma BoundStep(v: nat, p: nat, b: nat, d: nat)
    requires v < p && d < b
    ensures v * b + d < b * p
  {
    MulMono(v, p - 1, b);
  }

  lemma DivModFacts(n: nat, b: nat)
    requires 2 <= b <= n
    ensures n / b < n && n % b < b && n == (n / b) * b + n % b
  {
  }

  lemma Regroup(va: int, p: int, vc: int, b: int, d: int)
    ensures (va * p + vc) * b + d == va * (b * p) + (vc * b + d)
  {
  }

  lemma PowMono(b: nat, j: nat, k: nat)
    requires b >= 1 && j <= k
    ensures Pow(b, j) <= Pow(b, k)
    decreases k
  {
    if j < k {
      PowMono(b, j, k - 1);
      MulMono(1, b, Pow(b, k - 1));
    }
  }

  // ---------------------------------------------------------------------------
  // Properties of digit strings
  // ---------------------------------------------------------------------------

  /** The value of a concatenation: the high part shifted by the length of the low part. */
  lemma {:induction false} ValueConcat(a: string, c: string, base: nat)
    requires AllDigits(a, base) && AllDigits(c, base)
    ensures AllDigits(a + c, base)
    ensures ValueOf(a + c, base) == ValueOf(a, base) * Pow(base, |c|) + ValueOf(c, base)
    decreases |c|
  {
    if c == [] {
      assert a + c == a;
    } else {
      var c' := c[..|c| - 1];
      assert (a + c)[..|a + c| - 1] == a + c';
      ValueConcat(a, c', base);
      var va, vc', p, d := ValueOf(a, base), ValueOf(c', base), Pow(base, |c'|), DigitOf(c[|c| - 1]);
      assert (a + c)[|a + c| - 1] == c[|c| - 1];
      assert ValueOf(a + c, base) == ValueOf(a + c', base) * base + d;
      assert ValueOf(c, base) == vc' * base + d;
      Regroup(va, p, vc', base, d);
    }
  }

  /** A digit string of length k stays below base^k. */
  lemma {:induction false} ValueBound(s: string, base: nat)
    requires base >= 1 && AllDigits(s, base)
    ensures ValueOf(s, base) < Pow(base, |s|)
    decreases |s|
  {
    if s != [] {
      var s' := s[..|s| - 1];
      ValueBound(s', base);
      BoundStep(ValueOf(s', base), Pow(base, |s'|), base, DigitOf(s[|s| - 1]));
    }
  }

  /** Leading (or any) zeros carry no value. */
  lemma {:induction false} ZerosValue(s: string, base: nat)
    requires base >= 1
    requires forall i :: 0 <= i < |s| ==> s[i] == '0'
    ensures AllDigits(s, base) && ValueOf(s, base) == 0
    decreases |s|
  {
    if s != [] {
      ZerosValue(s[..|s| - 1], base);
    }
  }

  lemma ZeroPaddedValue(k: nat, s: string, base: nat)
    requires base >= 1 && AllDigits(s, base)
    ensures AllDigits(Repeat('0', k) + s, base)
    ensures ValueOf(Repeat('0', k) + s, base) == ValueOf(s, base)
  {
    ZerosValue(Repeat('0', k), base);
    ValueConcat(Repeat('0', k), s, base);
  }

  /** Keeping the last k digits keeps the value modulo base^k. */
  lemma LastDigitsMod(s: string, k: nat, base: nat)
    requires base >= 1 && AllDigits(s, base) && k <= |s|
    ensures AllDigits(s[|s| - k..], base)
    ensures ValueOf(s[|s| - k..], base) == ValueOf(s, base) % Pow(base, k)
  {
    var hi, lo := s[..|s| - k], s[|s| - k..];
    assert s == hi + lo;
    ValueConcat(hi, lo, base);
    ValueBound(lo, base);
    assert |lo| == k;
    ModOfSum(ValueOf(hi, base), Pow(base, k), ValueOf(lo, base));
  }

  lemma UpperDigitChar(d: nat)
    requires d < 36
    ensures IsUpperDigit(UpperChar(DigitChar(d)), d + 1)
    ensures DigitOf(UpperChar(DigitChar(d))) == d
  {
  }

  /** Appending one upper-case digit shifts the value up by one place. */
  lemma AppendDigit(hi: string, d: char, base: nat)
    requires AllUpperDigits(hi, base) && IsUpperDigit(d, base)
    ensures AllUpperDigits(hi + [d], base) && AllDigits(hi + [d], base)
    ensures ValueOf(hi + [d], base) == ValueOf(hi, base) * base + DigitOf(d)
  {
    var r := hi + [d];
    assert r[..|r| - 1] == hi;
  }

  /** toString(radix).toUpperCase() writes upper-case digits whose value is the number. */
  lemma {:induction false} UpperRadixDigits(n: nat, base: nat)
    requires 2 <= base <= 36
    ensures AllUpperDigits(ToUpperCase(RadixDigits(n, base)), base)
    ensures AllDigits(ToUpperCase(RadixDigits(n, base)), base)
    ensures ValueOf(ToUpperCase(RadixDigits(n, base)), base) == n
    decreases n
  {
    if n < base {
      UpperDigitChar(n);
      AppendDigit([], UpperChar(DigitChar(n)), base);
      assert ToUpperCase(RadixDigits(n, base)) == [] + [UpperChar(DigitChar(n))];
    } else {
      DivModFacts(n, base);
      UpperDigitsStep(n, base);
      UpperRadixDigits(n / base, base);
      UpperDigitChar(n % base);
      AppendDigit(ToUpperCase(RadixDigits(n / base, base)), UpperChar(DigitChar(n % base)), base);
    }
  }

  /** The upper-cased digits of n are those of n / base, then the digit of n % base. */
  lemma UpperDigitsStep(n: nat, base: nat)
    requires 2 <= base <= n && base <= 36
    ensures ToUpperCase(RadixDigits(n, base))
         == ToUpperCase(RadixDigits(n / base, base)) + [UpperChar(DigitChar(n % base))]
  {
    ToUpperCaseConcat(RadixDigits(n / base, base), [DigitChar(n % base)]);
  }

  /** A number below base^k needs at most k digits. */
  lemma {:induction false} RadixLength(n: nat, base: nat, k: nat)
    requires 2 <= base <= 36 && 1 <= k && n < Pow(base, k)
    ensures |RadixDigits(n, base)| <= k
    decreases n
  {
    if n >= base {
      DivModFacts(n, base);
      var p := Pow(base, k - 1);
      if k == 1 {
        assert false;
      }
      DivBound(n, base, p);
      RadixLength(n / base, base, k - 1);
      assert RadixDigits(n, base) == RadixDigits(n / base, base) + [DigitChar(n % base)];
    }
  }
}
