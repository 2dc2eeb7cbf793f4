/** Byte-level helpers shared by the reader and the writer: the .NET
    `BitConverter` little-endian conversions, the C# `int` wrap-around, and
    the hexadecimal formatting (`ToString("X2")`) and parsing
    (`Convert.ToUInt16(_, 16)`) the codec relies on. */
module Bytes {
  import opened Wrappers

  newtype byte = x: int | 0 <= x < 0x100
  /** A font index (C# `UInt16`). */
  newtype u16 = x: int | 0 <= x < 0x1_0000

  const TWO32: int := 0x1_0000_0000
  const TWO31: int := 0x8000_0000

  function Max(a: int, b: int): int { if a < b then b else a }
  function Min(a: int, b: int): int { if a < b then a else b }

  function Zeros(n: nat): (r: seq<byte>)
    ensures |r| == n && forall i :: 0 <= i < n ==> r[i] == 0
  {
    seq(n, _ => 0)
  }

  /** Concatenation of a sequence of byte strings. */
  function Flatten(ss: seq<seq<byte>>): seq<byte>
  {
    if ss == [] then [] else Flatten(ss[..|ss| - 1]) + ss[|ss| - 1]
  }

  lemma {:induction false} FlattenAppend(ss: seq<seq<byte>>, t: seq<byte>)
    ensures Flatten(ss + [t]) == Flatten(ss) + t
  {
    assert (ss + [t])[..|ss|] == ss;
  }

  /** The value a C# `int` holds after unchecked arithmetic or a cast from
      `long`: the unique integer in [-2^31, 2^31) congruent to x. */
  function Wrap32(x: int): (r: int)
    ensures -TWO31 <= r < TWO31
    ensures (x - r) % TWO32 == 0
    ensures -TWO31 <= x < TWO31 ==> r == x
  {
    var m := x % TWO32;
    if m >= TWO31 then m - TWO32 else m
  }

  /** `BitConverter.ToUInt16(s, i)` on a little-endian machine. */
  function U16At(s: seq<byte>, i: nat): (r: int)
    requires i + 2 <= |s|
    ensures 0 <= r < 0x1_0000
  {
    s[i] as int + 256 * (s[i + 1] as int)
  }

  /** The four bytes at i read as an unsigned little-endian number. */
  function U32At(s: seq<byte>, i: nat): (r: int)
    requires i + 4 <= |s|
    ensures 0 <= r < TWO32
  {
    s[i] as int + 256 * (s[i + 1] as int) + 65536 * (s[i + 2] as int) + 16777216 * (s[i + 3] as int)
  }

  /** `BitConverter.ToInt32(s, i)`. */
  function I32At(s: seq<byte>, i: nat): (r: int)
    requires i + 4 <= |s|
    ensures -TWO31 <= r < TWO31
  {
    Wrap32(U32At(s, i))
  }

  /** `BitConverter.GetBytes(x)` for a `UInt16` x. */
  function Le16(x: int): (r: seq<byte>)
    requires 0 <= x < 0x1_0000
    ensures |r| == 2
  {
    [(x % 256) as byte, (x / 256) as byte]
  }

  /** `BitConverter.GetBytes((int)x)`: the low 32 bits of x, little-endian. */
  function Le32(x: int): (r: seq<byte>)
    ensures |r| == 4
  {
    var m := x % TWO32;
    [(m % 256) as byte, (m / 256 % 256) as byte, (m / 65536 % 256) as byte, (m / 16777216) as byte]
  }

  /** Division by 2^16 with remainder has one answer. */
  lemma Mod16Of(a: int, q: int, r: int)
    requires a == 0x1_0000 * q + r && 0 <= r < 0x1_0000
    ensures a % 0x1_0000 == r
  {
  }

  lemma DivMod256(x: int)
    requires x >= 0
    ensures x == x % 256 + 256 * (x / 256) && 0 <= x % 256 < 256
  {
  }

  /** Reading back what `Le16` wrote gives the same `UInt16`. */
  lemma {:induction false} U16AtLe16(x: int)
    requires 0 <= x < 0x1_0000
    ensures U16At(Le16(x), 0) == x
  {
    DivMod256(x);
  }

  /** The unsigned value of what `Le32` wrote is x modulo 2^32. */
  lemma {:induction false} U32AtLe32(x: int)
    ensures U32At(Le32(x), 0) == x % TWO32
  {
    var m := x % TWO32;
    var q1 := m / 256;
    var q2 := q1 / 256;
    var q3 := q2 / 256;
    DivMod256(m);
    DivMod256(q1);
    DivMod256(q2);
    assert m / 65536 == q2;
    assert m / 16777216 == q3;
  }

  /** Reading back what `Le32` wrote gives the C# `int` the writer held. */
  lemma {:induction false} I32AtLe32(x: int)
    ensures I32At(Le32(x), 0) == Wrap32(x)
  {
    U32AtLe32(x);
    var m := x % TWO32;
    assert m % TWO32 == m;
    calc {
      I32At(Le32(x), 0);
      Wrap32(m);
      { assert m % TWO32 == x % TWO32; }
      Wrap32(x);
    }
  }

  // ---------------------------------------------------------------------
  // Single bits of a byte: `x & ~m` and `x | m` for m one of the masks
  // 0x40 (bit 6) and 0x80 (bit 7)

  predicate IsBitMask(m: int)
  {
    m == 0x40 || m == 0x80
  }

  predicate HasBit(x: byte, m: int)
    requires IsBitMask(m)
  {
    (x as int / m) % 2 == 1
  }

  /** The other one of the two masks. */
  function OtherBit(m: int): (n: int)
    requires IsBitMask(m)
    ensures IsBitMask(n) && n != m
  {
    if m == 0x40 then 0x80 else 0x40
  }

  /** `x & ~m`. */
  function ClearBit(x: byte, m: int): (r: byte)
    requires IsBitMask(m)
    ensures !HasBit(r, m)
    ensures HasBit(r, OtherBit(m)) <==> HasBit(x, OtherBit(m))
  {
    if HasBit(x, m) then x - m as byte else x
  }

  /** `x | m`. */
  function SetBit(x: byte, m: int): (r: byte)
    requires IsBitMask(m)
    ensures HasBit(r, m)
    ensures HasBit(r, OtherBit(m)) <==> HasBit(x, OtherBit(m))
    ensures r as int % m == x as int % m
  {
    if HasBit(x, m) then x else x + m as byte
  }

  // ---------------------------------------------------------------------
  // Hexadecimal text

  predicate IsHexDigit(c: char)
  {
    '0' <= c <= '9' || 'a' <= c <= 'f' || 'A' <= c <= 'F'
  }

  /** The digits `ToString("X")` writes: no lower-case letters. */
  predicate IsUpperHexDigit(c: char)
  {
    '0' <= c <= '9' || 'A' <= c <= 'F'
  }

  function HexVal(c: char): (r: int)
    requires IsHexDigit(c)
    ensures 0 <= r < 16
  {
    if '0' <= c <= '9' then c as int - '0' as int
    else if 'a' <= c <= 'f' then c as int - 'a' as int + 10
    else c as int - 'A' as int + 10
  }

  /** One upper-case hexadecimal digit, as .NET's "X" format prints it. */
  function HexDigit(d: int): (c: char)
    requires 0 <= d < 16
    ensures IsHexDigit(c) && IsUpperHexDigit(c) && HexVal(c) == d
    ensures c != '{' && c != '}' && c != '\n' && c != '"' && c != '+'
  {
    if d < 10 then ('0' as int + d) as char else ('A' as int + d - 10) as char
  }

  /** `Convert.ToUInt16(p, 16)` on a two-character string p, which
      succeeds on two hex digits and also on a '+' sign followed by one hex
      digit; the escape loop keeps only the low byte of the result. */
  function ParseHexPair(c0: char, c1: char): (r: Option<byte>)
    ensures r.Some? <==> IsHexDigit(c1) && (IsHexDigit(c0) || c0 == '+')
  {
    if IsHexDigit(c0) && IsHexDigit(c1) then Some((16 * HexVal(c0) + HexVal(c1)) as byte)
    else if c0 == '+' && IsHexDigit(c1) then Some(HexVal(c1) as byte)
    else None
  }

  /** `b.ToString("X2")` for a byte b: two upper-case digits. */
  function Hex2(b: byte): (r: string)
    ensures |r| == 2 && IsHexDigit(r[0]) && IsHexDigit(r[1])
    ensures IsUpperHexDigit(r[0]) && IsUpperHexDigit(r[1])
    ensures forall i :: 0 <= i < 2 ==> r[i] != '{' && r[i] != '}' && r[i] != '\n' && r[i] != '"'
  {
    var v := b as int;
    [HexDigit(v / 16), HexDigit(v % 16)]
  }

  /** The two digits of `X2` parse back to the byte. */
  lemma Hex2Parses(b: byte)
    ensures ParseHexPair(Hex2(b)[0], Hex2(b)[1]) == Some(b)
  {
    var v := b as int;
    assert v == 16 * (v / 16) + v % 16;
  }

  /** The number a string of hex digits denotes. */
  function HexNumber(s: string): (r: nat)
    requires AllHex(s)
  {
    if s == [] then 0 else 16 * HexNumber(s[..|s| - 1]) + HexVal(s[|s| - 1])
  }

  /** The shortest upper-case hex spelling of v ("" for 0). */
  function HexDigits(v: nat): (r: string)
    ensures forall i :: 0 <= i < |r| ==> IsHexDigit(r[i]) && IsUpperHexDigit(r[i]) && r[i] != '{' && r[i] != '}'
    ensures v > 0 ==> |r| >= 1
    ensures v >= 16 ==> |r| >= 2
  {
    if v == 0 then "" else HexDigits(v / 16) + [HexDigit(v % 16)]
  }

  /** `v.ToString("X2")` for a `UInt16` v: upper-case hex, at least two digits. */
  function HexX2(v: nat): (r: string)
    ensures |r| >= 2
    ensures forall i :: 0 <= i < |r| ==> IsHexDigit(r[i]) && IsUpperHexDigit(r[i]) && r[i] != '{' && r[i] != '}'
  {
    if v == 0 then "00" else if v < 16 then "0" + HexDigits(v) else HexDigits(v)
  }

  /** `Convert.ToUInt16("0x" + s, 16)`: the digits after the "0x" prefix
      must be a non-empty run of hex digits denoting at most 0xFFFF. */
  function ParseHexU16(s: string): (r: Option<u16>)
    ensures r.Some? <==> s != [] && AllHex(s) && HexNumber(s) < 0x1_0000
    ensures r.Some? ==> r.value as int == HexNumber(s)
  {
    if s != [] && AllHex(s) && HexNumber(s) < 0x1_0000 then
      Some(HexNumber(s) as u16)
    else None
  }

  predicate AllHex(s: string)
  {
    forall i :: 0 <= i < |s| ==> IsHexDigit(s[i])
  }

  lemma {:induction false} HexNumberOfDigits(v: nat)
    ensures HexNumber(HexDigits(v)) == v
    decreases v
  {
    if v != 0 {
      HexNumberOfDigits(v / 16);
      var d := HexDigits(v);
      assert d[..|d| - 1] == HexDigits(v / 16);
    }
  }

  lemma {:induction false} HexNumberLeadingZero(s: string)
    requires AllHex(s)
    ensures HexNumber("0" + s) == HexNumber(s)
    decreases |s|
  {
    if s != [] {
      var t := "0" + s;
      assert t[..|t| - 1] == "0" + s[..|s| - 1];
      HexNumberLeadingZero(s[..|s| - 1]);
    } else {
      assert ("0" + s)[..0] == [];
    }
  }

  /** A font index printed the way the decoder prints an unknown glyph
      parses back, as a font-table index, to the same index. */
  lemma {:induction false} ParseHexX2(k: u16)
    ensures ParseHexU16(HexX2(k as int)) == Some(k)
  {
    var v := k as int;
    HexNumberOfDigits(v);
    if v == 0 {
      assert HexNumber("00") == 0 by {
        assert "00"[..1] == "0";
        assert "0"[..0] == "";
      }
    } else if v < 16 {
      HexNumberLeadingZero(HexDigits(v));
    }
  }
}
