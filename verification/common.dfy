/** Shared vocabulary of the model: the C/C# fixed-width integer ranges, the
    explicit wrap-around of casts, little-endian byte encodings, decimal and
    hexadecimal text, ASCII case folding and a byte-wise memory copy. */
module Common {

  datatype Option<+T> = None | Some(value: T)

  type uint8 = x: int | 0 <= x < 0x100
  type int8 = x: int | -0x80 <= x < 0x80
  type uint16 = x: int | 0 <= x < 0x1_0000
  type int16 = x: int | -0x8000 <= x < 0x8000
  type uint32 = x: int | 0 <= x < 0x1_0000_0000
  type int32 = x: int | -0x8000_0000 <= x < 0x8000_0000
  type uint64 = x: int | 0 <= x < 0x1_0000_0000_0000_0000

  function Pow2(n: nat): (r: nat)
    ensures r >= 1
  {
    if n == 0 then 1 else 2 * Pow2(n - 1)
  }

  /** 256^n, the number of values an n-byte field can hold. */
  function Pow256(n: nat): (r: nat)
    ensures r >= 1
  {
    if n == 0 then 1 else 256 * Pow256(n - 1)
  }

  /** C# `(uint)x`: keep the low 32 bits. */
  function U32(x: int): (r: uint32)
    ensures 0 <= x < 0x1_0000_0000 ==> r == x
    ensures (r - x) % 0x1_0000_0000 == 0
  {
    x % 0x1_0000_0000
  }

  /** C# `(int)x` on a wider integer: keep the low 32 bits, read them as two's complement. */
  function I32(x: int): (r: int32)
    ensures -0x8000_0000 <= x < 0x8000_0000 ==> r == x
    ensures (r - x) % 0x1_0000_0000 == 0
  {
    var u := x % 0x1_0000_0000;
    if u >= 0x8000_0000 then u - 0x1_0000_0000 else u
  }

  // ---------------------------------------------------------------------------
  // Little-endian byte encodings

  /** The n bytes of x, least significant first. */
  function EncodeLE(x: nat, n: nat): (s: seq<uint8>)
    requires x < Pow256(n)
    ensures |s| == n
  {
    if n == 0 then [] else [x % 256] + EncodeLE(x / 256, n - 1)
  }

  /** The unsigned value of little-endian bytes. */
  function DecodeLE(s: seq<uint8>): (x: nat)
    ensures x < Pow256(|s|)
  {
    if s == [] then 0 else s[0] + 256 * DecodeLE(s[1..])
  }

  lemma {:induction false} DecodeEncodeLE(x: nat, n: nat)
    requires x < Pow256(n)
    ensures DecodeLE(EncodeLE(x, n)) == x
  {
    if n > 0 {
      DecodeEncodeLE(x / 256, n - 1);
      assert EncodeLE(x, n)[1..] == EncodeLE(x / 256, n - 1);
    }
  }

  lemma {:induction false} EncodeDecodeLE(s: seq<uint8>)
    ensures EncodeLE(DecodeLE(s), |s|) == s
  {
    if s != [] {
      var rest := DecodeLE(s[1..]);
      EncodeDecodeLE(s[1..]);
      DivMod256(s[0], rest);
      assert EncodeLE(DecodeLE(s), |s|) == [s[0]] + EncodeLE(rest, |s| - 1);
    }
  }

  /** A byte and a multiple of 256 split back into the two. */
  lemma DivMod256(low: uint8, high: nat)
    ensures (low + 256 * high) % 256 == low && (low + 256 * high) / 256 == high
  {
  }

  lemma LowByteOf(x: nat, low: uint8, high: nat)
    requires x == low + 256 * high
    ensures x % 256 == low
  {
    DivMod256(low, high);
  }

  /** x is representable as an n-byte two's complement integer. */
  predicate FitsSigned(x: int, n: nat)
  {
    var half: int := Pow256(n) / 2;
    -half <= x < half
  }

  /** Two's complement of x in an n-byte field. */
  function ToUnsigned(x: int, n: nat): (u: nat)
    requires n >= 1 && FitsSigned(x, n)
    ensures u < Pow256(n)
  {
    if x < 0 then x + Pow256(n) else x
  }

  /** The signed value of an n-byte two's complement pattern. */
  function FromUnsigned(u: nat, n: nat): (x: int)
    requires n >= 1 && u < Pow256(n)
    ensures FitsSigned(x, n)
  {
    HalfPow256(n);
    if u >= Pow256(n) / 2 then u - Pow256(n) else u
  }

  lemma HalfPow256(n: nat)
    requires n >= 1
    ensures Pow256(n) == 2 * (Pow256(n) / 2)
  {
    var p := Pow256(n - 1);
    assert Pow256(n) == 2 * (128 * p);
  }

  lemma SignedRoundTrip(x: int, n: nat)
    requires n >= 1 && FitsSigned(x, n)
    ensures FromUnsigned(ToUnsigned(x, n), n) == x
  {
    HalfPow256(n);
  }

  lemma UnsignedRoundTrip(u: nat, n: nat)
    requires n >= 1 && u < Pow256(n)
    ensures ToUnsigned(FromUnsigned(u, n), n) == u
  {
    HalfPow256(n);
  }

  function EncodeU16(x: uint16): (s: seq<uint8>) ensures |s| == 2 { EncodeLE(x, 2) }
  function EncodeU32(x: uint32): (s: seq<uint8>) ensures |s| == 4 { EncodeLE(x, 4) }
  function EncodeU64(x: uint64): (s: seq<uint8>) ensures |s| == 8 { EncodeLE(x, 8) }
  function EncodeI16(x: int16): (s: seq<uint8>) ensures |s| == 2 { EncodeLE(ToUnsigned(x, 2), 2) }
  function EncodeI32(x: int32): (s: seq<uint8>) ensures |s| == 4 { EncodeLE(ToUnsigned(x, 4), 4) }

  function DecodeU16(s: seq<uint8>): uint16 requires |s| == 2 { DecodeLE(s) }
  function DecodeU32(s: seq<uint8>): uint32 requires |s| == 4 { DecodeLE(s) }
  function DecodeU64(s: seq<uint8>): uint64 requires |s| == 8 { DecodeLE(s) }
  function DecodeI16(s: seq<uint8>): int16 requires |s| == 2 { FromUnsigned(DecodeLE(s), 2) }
  function DecodeI32(s: seq<uint8>): int32 requires |s| == 4 { FromUnsigned(DecodeLE(s), 4) }

  lemma FieldRoundTrips(u16: uint16, u32: uint32, u64: uint64, i16: int16, i32: int32)
    ensures DecodeU16(EncodeU16(u16)) == u16 && DecodeU32(EncodeU32(u32)) == u32
    ensures DecodeU64(EncodeU64(u64)) == u64
    ensures DecodeI16(EncodeI16(i16)) == i16 && DecodeI32(EncodeI32(i32)) == i32
  {
    DecodeEncodeLE(u16, 2);
    DecodeEncodeLE(u32, 4);
    DecodeEncodeLE(u64, 8);
    DecodeEncodeLE(ToUnsigned(i16, 2), 2);
    SignedRoundTrip(i16, 2);
    DecodeEncodeLE(ToUnsigned(i32, 4), 4);
    SignedRoundTrip(i32, 4);
  }

  lemma FieldBytesRoundTrip(b: seq<uint8>)
    ensures |b| == 2 ==> EncodeU16(DecodeU16(b)) == b && EncodeI16(DecodeI16(b)) == b
    ensures |b| == 4 ==> EncodeU32(DecodeU32(b)) == b && EncodeI32(DecodeI32(b)) == b
    ensures |b| == 8 ==> EncodeU64(DecodeU64(b)) == b
  {
    EncodeDecodeLE(b);
    if |b| == 2 || |b| == 4 {
      UnsignedRoundTrip(DecodeLE(b), |b|);
    }
  }

  lemma U16Bytes(b: seq<uint8>)
    requires |b| == 2
    ensures EncodeU16(DecodeU16(b)) == b
  {
    EncodeDecodeLE(b);
  }

  lemma U32Bytes(b: seq<uint8>)
    requires |b| == 4
    ensures EncodeU32(DecodeU32(b)) == b
  {
    EncodeDecodeLE(b);
  }

  lemma U64Bytes(b: seq<uint8>)
    requires |b| == 8
    ensures EncodeU64(DecodeU64(b)) == b
  {
    EncodeDecodeLE(b);
  }

  lemma I16Bytes(b: seq<uint8>)
    requires |b| == 2
    ensures EncodeI16(DecodeI16(b)) == b
  {
    EncodeDecodeLE(b);
    UnsignedRoundTrip(DecodeLE(b), 2);
  }

  lemma I32Bytes(b: seq<uint8>)
    requires |b| == 4
    ensures EncodeI32(DecodeI32(b)) == b
  {
    EncodeDecodeLE(b);
    UnsignedRoundTrip(DecodeLE(b), 4);
  }

  /** Cutting a slice in two at j. */
  lemma SliceSplit<T>(b: seq<T>, i: nat, j: nat, k: nat)
    requires i <= j <= k <= |b|
    ensures b[i..k] == b[i..j] + b[j..k]
  {
  }

  /** A slice of a slice is a slice of the whole. */
  lemma SliceOfSlice<T>(b: seq<T>, lo: nat, hi: nat, i: nat, j: nat)
    requires lo <= hi <= |b| && i <= j <= hi - lo
    ensures b[lo..hi][i..j] == b[lo + i..lo + j]
  {
    var inner, outer := b[lo..hi][i..j], b[lo + i..lo + j];
    assert |inner| == |outer|;
    forall k | 0 <= k < |inner|
      ensures inner[k] == outer[k]
    {
      assert inner[k] == b[lo..hi][i + k];
    }
  }

  /** A C array of signed n-byte integers, element by element. */
  function EncodeSignedArray(xs: seq<int>, n: nat): (s: seq<uint8>)
    requires n >= 1
    requires forall i :: 0 <= i < |xs| ==> FitsSigned(xs[i], n)
    ensures |s| == n * |xs|
  {
    if xs == [] then []
    else
      MulSucc(n, |xs| - 1);
      EncodeLE(ToUnsigned(xs[0], n), n) + EncodeSignedArray(xs[1..], n)
  }

  /** The `count` signed n-byte integers stored in s. */
  function DecodeSignedArray(s: seq<uint8>, n: nat, count: nat): (xs: seq<int>)
    requires n >= 1 && |s| == n * count
    ensures |xs| == count
    ensures forall i :: 0 <= i < |xs| ==> FitsSigned(xs[i], n)
  {
    if count == 0 then []
    else
      MulSucc(n, count - 1);
      [FromUnsigned(DecodeLE(s[..n]), n)] + DecodeSignedArray(s[n..], n, count - 1)
  }

  lemma MulSucc(n: nat, k: nat)
    ensures n * (k + 1) == n + n * k
  {
  }

  lemma {:induction false} SignedArrayRoundTrip(xs: seq<int>, n: nat)
    requires n >= 1
    requires forall i :: 0 <= i < |xs| ==> FitsSigned(xs[i], n)
    ensures DecodeSignedArray(EncodeSignedArray(xs, n), n, |xs|) == xs
  {
    if xs != [] {
      var s := EncodeSignedArray(xs, n);
      var head := EncodeLE(ToUnsigned(xs[0], n), n);
      var tail := EncodeSignedArray(xs[1..], n);
      assert s == head + tail;
      assert s[..n] == head && s[n..] == tail;
      DecodeEncodeLE(ToUnsigned(xs[0], n), n);
      SignedRoundTrip(xs[0], n);
      SignedArrayRoundTrip(xs[1..], n);
    }
  }

  lemma {:induction false} SignedArrayRoundTripBytes(s: seq<uint8>, n: nat, count: nat)
    requires n >= 1 && |s| == n * count
    ensures EncodeSignedArray(DecodeSignedArray(s, n, count), n) == s
  {
    if count > 0 {
      MulSucc(n, count - 1);
      var head, tail := s[..n], s[n..];
      var xs := DecodeSignedArray(s, n, count);
      DecodeSignedArrayCons(s, n, count);
      calc {
        EncodeSignedArray(xs, n);
      == { EncodeSignedArrayCons(xs, n); }
        EncodeLE(ToUnsigned(xs[0], n), n) + EncodeSignedArray(xs[1..], n);
      == { UnsignedRoundTrip(DecodeLE(head), n); }
        EncodeLE(DecodeLE(head), n) + EncodeSignedArray(xs[1..], n);
      == { EncodeDecodeLE(head); }
        head + EncodeSignedArray(xs[1..], n);
      ==
        head + EncodeSignedArray(DecodeSignedArray(tail, n, count - 1), n);
      == { SignedArrayRoundTripBytes(tail, n, count - 1); }
        head + tail;
      == { assert s == head + tail; }
        s;
      }
    }
  }

  lemma DecodeSignedArrayCons(s: seq<uint8>, n: nat, count: nat)
    requires n >= 1 && count >= 1 && |s| == n * count
    ensures |s[n..]| == n * (count - 1)
    ensures var xs := DecodeSignedArray(s, n, count);
      xs[0] == FromUnsigned(DecodeLE(s[..n]), n) && xs[1..] == DecodeSignedArray(s[n..], n, count - 1)
  {
    MulSucc(n, count - 1);
  }

  lemma EncodeSignedArrayCons(xs: seq<int>, n: nat)
    requires n >= 1 && xs != []
    requires forall i :: 0 <= i < |xs| ==> FitsSigned(xs[i], n)
    ensures EncodeSignedArray(xs, n) == EncodeLE(ToUnsigned(xs[0], n), n) + EncodeSignedArray(xs[1..], n)
  {
  }

  // ---------------------------------------------------------------------------
  // Text

  predicate IsDigit(c: char) { '0' <= c <= '9' }

  predicate IsDecimal(s: string)
  {
    forall i :: 0 <= i < |s| ==> IsDigit(s[i])
  }

  function DigitChar(d: nat): (c: char)
    requires d < 10
    ensures IsDigit(c) && DigitValue(c) == d
  {
    ('0' as int + d) as char
  }

  function DigitValue(c: char): (d: nat)
    requires IsDigit(c)
    ensures d < 10
  {
    (c as int) - ('0' as int)
  }

  /** C# `n.ToString()` for a non-negative number. */
  function NatToDecimal(n: nat): (s: string)
    ensures |s| >= 1
    ensures forall i :: 0 <= i < |s| ==> IsDigit(s[i])
  {
    if n < 10 then [DigitChar(n)] else NatToDecimal(n / 10) + [DigitChar(n % 10)]
  }

  /** C# `n.ToString()` for an int: a minus sign, then the digits of |n|. */
  function IntToDecimal(n: int): (s: string)
    ensures |s| >= 1
  {
    if n < 0 then "-" + NatToDecimal(-n) else NatToDecimal(n)
  }

  /** C# `int.Parse` of a run of decimal digits (no overflow: see README). */
  function ParseDecimal(s: string): nat
    requires forall i :: 0 <= i < |s| ==> IsDigit(s[i])
  {
    if s == [] then 0 else 10 * ParseDecimal(s[..|s| - 1]) + DigitValue(s[|s| - 1])
  }

  lemma {:induction false} ParseNatToDecimal(n: nat)
    ensures ParseDecimal(NatToDecimal(n)) == n
  {
    if n < 10 {
      ParseDecimalSnoc([], DigitChar(n));
      assert [] + [DigitChar(n)] == NatToDecimal(n);
    } else {
      var q, r := n / 10, n % 10;
      ParseDecimalSnoc(NatToDecimal(q), DigitChar(r));
      ParseNatToDecimal(q);
      assert n == 10 * q + r;
    }
  }

  /** Appending a digit multiplies the parsed value by ten and adds the digit. */
  lemma ParseDecimalSnoc(s: string, c: char)
    requires forall i :: 0 <= i < |s| ==> IsDigit(s[i])
    requires IsDigit(c)
    ensures ParseDecimal(s + [c]) == 10 * ParseDecimal(s) + DigitValue(c)
  {
    assert (s + [c])[..|s|] == s;
  }

  function Pow10(k: nat): (r: nat)
    ensures r >= 1
  {
    if k == 0 then 1 else 10 * Pow10(k - 1)
  }

  /** A number at least 10^k has more than k decimal digits. */
  lemma {:induction false} DecimalLength(n: nat, k: nat)
    requires n >= Pow10(k)
    ensures |NatToDecimal(n)| > k
  {
    if k > 0 {
      DecimalLength(n / 10, k - 1);
    }
  }

  predicate IsHexDigit(c: char) { '0' <= c <= '9' || 'A' <= c <= 'F' }

  predicate AllHexDigits(s: string)
  {
    forall i :: 0 <= i < |s| ==> IsHexDigit(s[i])
  }

  function HexValue(c: char): (d: nat)
    requires IsHexDigit(c)
    ensures d < 16
  {
    if c <= '9' then (c as int) - ('0' as int) else (c as int) - ('A' as int) + 10
  }

  /** One upper-case hexadecimal digit. */
  function HexDigit(d: nat): (c: char)
    requires d < 16
    ensures IsHexDigit(c) && HexValue(c) == d
  {
    if d < 10 then ('0' as int + d) as char else ('A' as int + d - 10) as char
  }

  /** Upper-case hexadecimal digits of n, at least `width` of them (leading zeros). */
  function HexUpper(n: nat, width: nat): (s: string)
    ensures |s| >= 1 && |s| >= width
    ensures AllHexDigits(s)
    decreases n + width
  {
    if n < 16 && width <= 1 then [HexDigit(n)]
    else HexUpper(n / 16, if width == 0 then 0 else width - 1) + [HexDigit(n % 16)]
  }

  /** Reads a run of hexadecimal digits, most significant first. */
  function ParseHex(s: string): nat
    requires AllHexDigits(s)
  {
    if s == [] then 0 else 16 * ParseHex(s[..|s| - 1]) + HexValue(s[|s| - 1])
  }

  /** The digits `HexUpper` writes read back as the number, whatever the padding. */
  lemma {:induction false} ParseHexUpper(n: nat, width: nat)
    ensures ParseHex(HexUpper(n, width)) == n
    decreases n + width
  {
    var s := HexUpper(n, width);
    if n < 16 && width <= 1 {
      assert s[..|s| - 1] == [];
    } else {
      var w := if width == 0 then 0 else width - 1;
      ParseHexUpper(n / 16, w);
      assert s[..|s| - 1] == HexUpper(n / 16, w);
      assert n == 16 * (n / 16) + n % 16;
    }
  }

  /** A number below 16^width takes exactly `width` digits (width >= 1). */
  lemma {:induction false} HexUpperWidth(n: nat, width: nat)
    requires width >= 1 && n < Pow16(width)
    ensures |HexUpper(n, width)| == width
  {
    if width > 1 {
      HexUpperWidth(n / 16, width - 1);
    }
  }

  function Pow16(k: nat): (r: nat)
    ensures r >= 1
  {
    if k == 0 then 1 else 16 * Pow16(k - 1)
  }

  /** Invariant-culture lower-casing, restricted to ASCII letters. */
  function LowerChar(c: char): char
  {
    if 'A' <= c <= 'Z' then ((c as int) + 32) as char else c
  }

  function Lower(s: string): (r: string)
    ensures |r| == |s|
    ensures forall i :: 0 <= i < |s| ==> r[i] == LowerChar(s[i])
  {
    seq(|s|, i requires 0 <= i < |s| => LowerChar(s[i]))
  }

  // ---------------------------------------------------------------------------
  // Memory

  /** UnsafeUtility.MemCpy into a byte buffer: `count` bytes of `src` land at
      `dstOffset`; every other byte of `dst` keeps its value. */
  method MemCpy(dst: array<uint8>, dstOffset: nat, src: seq<uint8>, count: nat)
    requires dstOffset + count <= dst.Length && count <= |src|
    modifies dst
    ensures dst[..] == old(dst[..dstOffset]) + src[..count] + old(dst[dstOffset + count..])
    ensures dstOffset == 0 && count == dst.Length == |src| ==> dst[..] == src
  {
    forall i | 0 <= i < count {
      dst[dstOffset + i] := src[i];
    }
    assert dst[..] == old(dst[..dstOffset]) + src[..count] + old(dst[dstOffset + count..]);
  }
}
