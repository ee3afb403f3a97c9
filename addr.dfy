/**
 * Typed 64-bit addresses: a virtual address, which the kernel turns into
 * a raw byte pointer, and a physical address; both print as `0x`
 * followed by sixteen upper-case hexadecimal digits.
 */
module Addr {
  import opened Arch

  /** A raw byte pointer: the address it holds and whether it may be written through. */
  datatype BytePtr = BytePtr(addr: U64, mutable: bool)

  /** `VirtualAddr`, a newtype over `u64`. */
  datatype VirtualAddr = VirtualAddr(value: U64)
  {
    /** `as_mut_ptr`: a writable pointer to the same address. */
    function AsMutPtr(): (p: BytePtr)
      ensures p.mutable
      ensures p.addr == Raw()
    {
      BytePtr(value, true)
    }

    /** `as_ptr`: a read-only pointer to the same address. */
    function AsPtr(): (p: BytePtr)
      ensures !p.mutable
      ensures p.addr == Raw()
    {
      BytePtr(value, false)
    }

    /** `raw`: the wrapped integer, from which `new` rebuilds the address. */
    function Raw(): (v: U64)
      ensures VirtualAddr(v) == this
    {
      value
    }
  }

  /** `PhysicalAddr`, a newtype over `u64`. */
  datatype PhysicalAddr = PhysicalAddr(value: U64)
  {
    /** `raw`: the wrapped integer, from which `new` rebuilds the address. */
    function Raw(): (v: U64)
      ensures PhysicalAddr(v) == this
    {
      value
    }
  }

  // ---------------------------------------------------------------
  // Formatting with `{:016X}`
  // ---------------------------------------------------------------

  /** Upper-case hexadecimal digits. */
  predicate IsHexDigit(c: char)
  {
    '0' <= c <= '9' || 'A' <= c <= 'F'
  }

  /** The digit for a value below 16. */
  function Digit(d: nat): (c: char)
    requires d < 16
    ensures IsHexDigit(c)
    ensures DigitValue(c) == d
  {
    if d < 10 then '0' + d as char else 'A' + (d - 10) as char
  }

  /** The value of a hexadecimal digit. */
  function DigitValue(c: char): (d: nat)
    requires IsHexDigit(c)
    ensures d < 16
  {
    if c <= '9' then (c - '0') as nat else (c - 'A') as nat + 10
  }

  lemma DigitRoundTrip(c: char)
    requires IsHexDigit(c)
    ensures Digit(DigitValue(c)) == c
  {
  }

  function Pow16(n: nat): (r: nat)
    ensures r > 0
  {
    if n == 0 then 1 else 16 * Pow16(n - 1)
  }

  /** The last `n` hexadecimal digits of `v`, most significant first, padded with `0`. */
  function HexDigits(v: nat, n: nat): (s: seq<char>)
    ensures |s| == n
    ensures forall i :: 0 <= i < n ==> IsHexDigit(s[i])
  {
    if n == 0 then [] else HexDigits(v / 16, n - 1) + [Digit(v % 16)]
  }

  /** Reads a string of hexadecimal digits, most significant first. */
  function ParseHex(s: seq<char>): (v: nat)
    requires forall i :: 0 <= i < |s| ==> IsHexDigit(s[i])
    ensures v < Pow16(|s|)
  {
    if s == [] then 0 else ParseHex(s[..|s| - 1]) * 16 + DigitValue(s[|s| - 1])
  }

  /** Fixed-width digits lose nothing when the value fits. */
  lemma {:induction false} ParseHexDigits(v: nat, n: nat)
    requires v < Pow16(n)
    ensures ParseHex(HexDigits(v, n)) == v
  {
    if n > 0 {
      var s := HexDigits(v, n);
      assert s[..n - 1] == HexDigits(v / 16, n - 1);
      ParseHexDigits(v / 16, n - 1);
    }
  }

  /** And every digit string is the fixed-width rendering of its value. */
  lemma {:induction false} DigitsOfParse(s: seq<char>)
    requires forall i :: 0 <= i < |s| ==> IsHexDigit(s[i])
    ensures HexDigits(ParseHex(s), |s|) == s
  {
    if s != [] {
      var n := |s|;
      var v := ParseHex(s);
      var p := s[..n - 1];
      assert v / 16 == ParseHex(p) && v % 16 == DigitValue(s[n - 1]);
      DigitsOfParse(p);
      DigitRoundTrip(s[n - 1]);
      assert s == p + [s[n - 1]];
    }
  }

  lemma Pow16Of16()
    ensures Pow16(16) == 0x1_0000_0000_0000_0000
  {
    assert Pow16(4) == 0x1_0000;
    assert Pow16(8) == 0x1_0000_0000 by {
      assert Pow16(8) == 0x1_0000 * Pow16(4);
    }
    assert Pow16(12) == 0x1_0000 * Pow16(8);
    assert Pow16(16) == 0x1_0000 * Pow16(12);
  }

  /**
   * `Display` for both `VirtualAddr` and `PhysicalAddr`: `0x` and the
   * sixteen-digit, zero-padded, upper-case rendering of `raw()`.
   */
  function Format(v: U64): (s: string)
    ensures |s| == 18 && s[..2] == "0x"
    ensures forall i :: 2 <= i < 18 ==> IsHexDigit(s[i])
  {
    "0x" + HexDigits(v, 16)
  }

  /** The printed form determines the address: reading the digits back gives it. */
  lemma FormatRoundTrip(v: U64)
    ensures ParseHex(Format(v)[2..]) == v
  {
    Pow16Of16();
    assert Format(v)[2..] == HexDigits(v, 16);
    ParseHexDigits(v, 16);
  }

  /** Different addresses print differently. */
  lemma FormatInjective(v: U64, w: U64)
    requires Format(v) == Format(w)
    ensures v == w
  {
    FormatRoundTrip(v);
    FormatRoundTrip(w);
  }

  /** Every string of the printed shape is the rendering of some address. */
  lemma FormatOnto(s: string)
    requires |s| == 18 && s[..2] == "0x"
    requires forall i :: 2 <= i < 18 ==> IsHexDigit(s[i])
    ensures ParseHex(s[2..]) < 0x1_0000_0000_0000_0000
    ensures Format(ParseHex(s[2..])) == s
  {
    Pow16Of16();
    DigitsOfParse(s[2..]);
    assert s == s[..2] + s[2..];
  }
}
