/** The entry decoder `ParseEntry` (Program.cs:519-626): a left-to-right
    scan of one entry's bytes with a variable advance, turning glyph codes
    into display text through the font table and opcodes into brace-
    delimited escape tokens. */
module Decoder {
  import opened Wrappers
  import opened Bytes
  import opened Font

  /** Reading `stringBuffer[i + 1]`, `stringBuffer[i + 2]` or four bytes
      for `BitConverter.ToString(_, i, 4)` beyond the end of the entry
      throws in the source. */
  datatype DecodeError = ReadPastEnd

  /** `BitConverter.ToString(bs).Replace("-", "")`. */
  function HexString(bs: seq<byte>): (s: string)
    ensures |s| == 2 * |bs|
    ensures forall i :: 0 <= i < |s| ==> IsHexDigit(s[i]) && s[i] != '{' && s[i] != '}' && s[i] != '\n' && s[i] != '"'
  {
    if bs == [] then "" else Hex2(bs[0]) + HexString(bs[1..])
  }

  lemma HexStringCons(b: byte, t: seq<byte>)
    ensures HexString([b] + t) == Hex2(b) + HexString(t)
  {
    assert ([b] + t)[1..] == t;
  }

  /** An escape token: the bytes in upper-case hex between braces. */
  function Token(bs: seq<byte>): string
  {
    "{" + HexString(bs) + "}"
  }

  /** The font index of a two-byte glyph: bit 6 of the first byte and bit
      7 of the second are cleared and the pair is read big-endian. */
  function GlyphIndex(b0: byte, b1: byte): (k: u16)
    ensures b0 >= 0xC0 ==> k >= 0x8000
  {
    (ClearBit(b0, 0x40) as int * 256 + ClearBit(b1, 0x80) as int) as u16
  }

  /** `kanji` first, then `specialCharacters`, then the placeholder. */
  function LookupGlyph(font: FontTable, k: u16, placeholder: string): string
  {
    if k in font.kanji then [font.kanji[k]]
    else if k in font.special then font.special[k]
    else placeholder
  }

  /** What an unknown font index is printed as: `{XX}` for a one-byte
      index, the index in at least two hex digits for a two-byte one. */
  function Placeholder(k: u16): string
  {
    if k < 256 then "{" + Hex2(k as int as byte) + "}" else "{" + HexX2(k as int) + "}"
  }

  /** The text printed for a font index (Program.cs:529-541, 603-618). */
  function Names(font: FontTable): u16 -> string
  {
    k => LookupGlyph(font, k, Placeholder(k))
  }

  /** The text one scan step emits and how far it advances; `eol` is the
      `printEndOfLine` flag. The scan is written over `names`, the text of
      a font index, which `DecodeEntry` takes from the font (`Names`). */
  function DecodeStep(data: seq<byte>, i: nat, names: u16 -> string, eol: bool): (r: Result<(string, nat), DecodeError>)
    requires i < |data|
    ensures r.Ok? ==> 1 <= r.value.1 && i + r.value.1 <= |data|
  {
    var b := data[i];
    if b == 0x00 then Ok(("", 1))
    else if b < 0xC0 then Ok((names(b as int as u16), 1))
    else if b == 0xEE then
      if i + 1 >= |data| then Err(ReadPastEnd)
      else if data[i + 1] == 0xA3 then
        if i + 2 >= |data| then Err(ReadPastEnd)
        else if data[i + 2] == 0xBF then Ok(((if eol then Token(data[i..i + 3]) else "") + "\n", 3))
        else Ok((Token(data[i..i + 3]), 3))
      else if data[i + 1] == 0xA0 then
        if i + 4 > |data| then Err(ReadPastEnd)
        else Ok((Token(data[i..i + 4]), 4))
      else Ok(("", 1))
    else
      if i + 1 >= |data| then Err(ReadPastEnd)
      else
        Ok((names(GlyphIndex(b, data[i + 1])), 2))
  }

  /** The text decoded from position i to the end. */
  function DecodeFrom(data: seq<byte>, i: nat, names: u16 -> string, eol: bool): Result<string, DecodeError>
    decreases |data| - i
  {
    if i >= |data| then Ok("")
    else
      var st := DecodeStep(data, i, names, eol);
      if st.Err? then Err(st.error)
      else Prepend(st.value.0, DecodeFrom(data, i + st.value.1, names, eol))
  }

  /** The text of one entry. */
  function DecodeEntry(data: seq<byte>, font: FontTable, eol: bool): Result<string, DecodeError>
  {
    DecodeFrom(data, 0, Names(font), eol)
  }

  /** One step of `DecodeFrom`, unfolded. */
  lemma DecodeFromStep(data: seq<byte>, i: nat, names: u16 -> string, eol: bool)
    requires i < |data|
    ensures DecodeStep(data, i, names, eol).Err? ==> DecodeFrom(data, i, names, eol) == Err(DecodeStep(data, i, names, eol).error)
    ensures DecodeStep(data, i, names, eol).Ok? ==>
              var (piece, n) := DecodeStep(data, i, names, eol).value;
              DecodeFrom(data, i, names, eol) == Prepend(piece, DecodeFrom(data, i + n, names, eol))
  {
  }

  /** The scan loop's invariant: the text built so far followed by the
      decoding from byte i is the entry's decoding. */
  predicate DecodedUpTo(data: seq<byte>, names: u16 -> string, eol: bool, text: string, i: nat)
  {
    Prepend(text, DecodeFrom(data, i, names, eol)) == DecodeFrom(data, 0, names, eol)
  }

  /** The scan loop's invariant carried over one unit. */
  lemma DecodeLoopGoesOn(data: seq<byte>, names: u16 -> string, eol: bool, text: string, i: nat,
                          step: Result<(string, nat), DecodeError>)
    requires i < |data| && step == DecodeStep(data, i, names, eol) && step.Ok?
    requires DecodedUpTo(data, names, eol, text, i)
    ensures DecodedUpTo(data, names, eol, text + step.value.0, i + step.value.1)
  {
    DecodeFromStep(data, i, names, eol);
    PrependPrepend(text, step.value.0, DecodeFrom(data, i + step.value.1, names, eol));
  }

  /** A unit that cannot be decoded fails the whole entry with its error. */
  lemma DecodeLoopStops(data: seq<byte>, names: u16 -> string, eol: bool, text: string, i: nat)
    requires i < |data| && DecodeStep(data, i, names, eol).Err?
    requires DecodedUpTo(data, names, eol, text, i)
    ensures DecodeFrom(data, 0, names, eol) == Err(DecodeStep(data, i, names, eol).error)
  {
    DecodeFromStep(data, i, names, eol);
  }

  /** At the end of the entry the text built is the entry's decoding. */
  lemma DecodeLoopEnds(data: seq<byte>, names: u16 -> string, eol: bool, text: string, i: nat)
    requires i >= |data| && DecodedUpTo(data, names, eol, text, i)
    ensures DecodeFrom(data, 0, names, eol) == Ok(text)
  {
    assert text + "" == text;
  }

  // ---------------------------------------------------------------------
  // Decoding is local: it depends only on the bytes it scans.

  lemma StepShift(p: seq<byte>, rest: seq<byte>, j: nat, names: u16 -> string, eol: bool)
    requires j < |rest|
    ensures DecodeStep(p + rest, |p| + j, names, eol) == DecodeStep(rest, j, names, eol)
  {
    var d := p + rest;
    var i := |p| + j;
    assert forall t :: j <= t < |rest| ==> d[|p| + t] == rest[t];
    if i + 3 <= |d| { assert d[i..i + 3] == rest[j..j + 3]; }
    if i + 4 <= |d| { assert d[i..i + 4] == rest[j..j + 4]; }
  }

  /** One unit read with bytes in front of it: the same text, the same
      advance. */
  lemma DecodeFromShiftStep(p: seq<byte>, rest: seq<byte>, j: nat, names: u16 -> string, eol: bool)
    returns (piece: string, n: nat)
    requires j < |rest| && DecodeStep(rest, j, names, eol).Ok?
    ensures j < j + n <= |rest|
    ensures DecodeFrom(rest, j, names, eol) == Prepend(piece, DecodeFrom(rest, j + n, names, eol))
    ensures DecodeFrom(p + rest, |p| + j, names, eol) == Prepend(piece, DecodeFrom(p + rest, |p| + (j + n), names, eol))
  {
    piece, n := DecodeFromOk(rest, j, names, eol);
    StepShift(p, rest, j, names, eol);
    var piece', n' := DecodeFromOk(p + rest, |p| + j, names, eol);
  }

  /** A unit that can be read: what it yields, and the rest of the scan. */
  lemma DecodeFromOk(data: seq<byte>, i: nat, names: u16 -> string, eol: bool) returns (piece: string, n: nat)
    requires i < |data| && DecodeStep(data, i, names, eol).Ok?
    ensures DecodeStep(data, i, names, eol) == Ok((piece, n))
    ensures i < i + n <= |data|
    ensures DecodeFrom(data, i, names, eol) == Prepend(piece, DecodeFrom(data, i + n, names, eol))
  {
    DecodeFromStep(data, i, names, eol);
    piece, n := DecodeStep(data, i, names, eol).value.0, DecodeStep(data, i, names, eol).value.1;
  }

  /** A unit that cannot be read fails the same way with bytes in front
      of it. */
  lemma DecodeFromShiftErr(p: seq<byte>, rest: seq<byte>, j: nat, names: u16 -> string, eol: bool)
    requires j < |rest| && DecodeStep(rest, j, names, eol).Err?
    ensures DecodeFrom(p + rest, |p| + j, names, eol) == DecodeFrom(rest, j, names, eol)
  {
    StepShift(p, rest, j, names, eol);
    DecodeFromStep(rest, j, names, eol);
    DecodeFromStep(p + rest, |p| + j, names, eol);
  }

  /** Bytes in front of the scan position do not change what follows. */
  lemma {:induction false} DecodeShift(p: seq<byte>, rest: seq<byte>, j: nat, names: u16 -> string, eol: bool)
    ensures DecodeFrom(p + rest, |p| + j, names, eol) == DecodeFrom(rest, j, names, eol)
    decreases |rest| - j
  {
    if j < |rest| {
      if DecodeStep(rest, j, names, eol).Ok? {
        var piece, n := DecodeFromShiftStep(p, rest, j, names, eol);
        DecodeShift(p, rest, j + n, names, eol);
      } else {
        DecodeFromShiftErr(p, rest, j, names, eol);
      }
    }
  }

  lemma StepAppend(a: seq<byte>, b: seq<byte>, i: nat, names: u16 -> string, eol: bool)
    requires i < |a| && DecodeStep(a, i, names, eol).Ok?
    ensures DecodeStep(a + b, i, names, eol) == DecodeStep(a, i, names, eol)
  {
    var d := a + b;
    assert forall t :: 0 <= t < |a| ==> d[t] == a[t];
    if i + 3 <= |a| { assert d[i..i + 3] == a[i..i + 3]; }
    if i + 4 <= |a| { assert d[i..i + 4] == a[i..i + 4]; }
  }

  /** One unit of `a` read with bytes after it: the same text, the same
      advance. */
  lemma DecodeFromAppendStep(a: seq<byte>, b: seq<byte>, i: nat, names: u16 -> string, eol: bool)
    returns (piece: string, n: nat)
    requires i < |a| && DecodeFrom(a, i, names, eol).Ok?
    ensures i < i + n <= |a| && DecodeFrom(a, i + n, names, eol).Ok?
    ensures DecodeFrom(a, i, names, eol) == Prepend(piece, DecodeFrom(a, i + n, names, eol))
    ensures DecodeFrom(a + b, i, names, eol) == Prepend(piece, DecodeFrom(a + b, i + n, names, eol))
  {
    DecodeFromStep(a, i, names, eol);
    StepAppend(a, b, i, names, eol);
    DecodeFromStep(a + b, i, names, eol);
    piece, n := DecodeStep(a, i, names, eol).value.0, DecodeStep(a, i, names, eol).value.1;
  }

  lemma {:induction false} DecodeFromAppend(a: seq<byte>, b: seq<byte>, i: nat, names: u16 -> string, eol: bool)
    requires i <= |a| && DecodeFrom(a, i, names, eol).Ok?
    ensures DecodeFrom(a + b, i, names, eol) == Prepend(DecodeFrom(a, i, names, eol).value, DecodeFrom(a + b, |a|, names, eol))
    decreases |a| - i
  {
    var x := DecodeFrom(a + b, |a|, names, eol);
    if i < |a| {
      var piece, n := DecodeFromAppendStep(a, b, i, names, eol);
      DecodeFromAppend(a, b, i + n, names, eol);
      PrependChain(DecodeFrom(a, i, names, eol), DecodeFrom(a, i + n, names, eol),
                   DecodeFrom(a + b, i, names, eol), DecodeFrom(a + b, i + n, names, eol), piece, x);
    } else {
      PrependNil(x);
    }
  }

  /** An entry that decodes without error, followed by more bytes, decodes
      to its own text followed by the text of the rest. */
  lemma DecodeAppend(a: seq<byte>, b: seq<byte>, font: FontTable, eol: bool)
    requires DecodeEntry(a, font, eol).Ok?
    ensures DecodeEntry(a + b, font, eol) == Prepend(DecodeEntry(a, font, eol).value, DecodeEntry(b, font, eol))
  {
    ScanAppend(a, b, Names(font), eol);
  }

  lemma ScanAppend(a: seq<byte>, b: seq<byte>, names: u16 -> string, eol: bool)
    requires DecodeFrom(a, 0, names, eol).Ok?
    ensures DecodeFrom(a + b, 0, names, eol) == Prepend(DecodeFrom(a, 0, names, eol).value, DecodeFrom(b, 0, names, eol))
  {
    DecodeFromAppend(a, b, 0, names, eol);
    DecodeShift(a, b, 0, names, eol);
  }

  /** Zero bytes are padding. */
  lemma {:induction false} DecodeZeros(n: nat, font: FontTable, eol: bool)
    ensures DecodeEntry(Zeros(n), font, eol) == Ok("")
    decreases n
  {
    if n > 0 {
      var z: seq<byte> := [0];
      assert z + Zeros(n - 1) == Zeros(n);
      DecodeShift(z, Zeros(n - 1), 0, Names(font), eol);
      DecodeZeros(n - 1, font, eol);
      assert DecodeStep(Zeros(n), 0, Names(font), eol) == Ok(("", 1));
      PrependNil(DecodeFrom(Zeros(n), 1, Names(font), eol));
    }
  }

  lemma {:induction false} TerminatedFrom(x: seq<byte>, i: nat, names: u16 -> string, eol: bool)
    requires i <= |x| + 2
    ensures DecodeFrom(x + [0, 0], i, names, eol).Ok?
    decreases |x| + 2 - i
  {
    var d := x + [0, 0];
    if i < |d| {
      assert d[|x|] == 0 && d[|x| + 1] == 0;
      var st := DecodeStep(d, i, names, eol);
      assert st.Ok?;
      TerminatedFrom(x, i + st.value.1, names, eol);
    }
  }

  /** Every entry the writer produces ends in `00 00`, and with that
      terminator the scan never reads past the end: decoding cannot fail,
      and the terminator adds no text. */
  lemma DecodeTerminated(x: seq<byte>, font: FontTable, eol: bool)
    ensures DecodeEntry(x + [0, 0], font, eol).Ok?
    ensures DecodeEntry(x, font, eol).Ok? ==> DecodeEntry(x + [0, 0], font, eol) == DecodeEntry(x, font, eol)
  {
    TerminatedFrom(x, 0, Names(font), eol);
    if DecodeEntry(x, font, eol).Ok? {
      DecodeAppend(x, [0, 0], font, eol);
      DecodeZeros(2, font, eol);
      assert Zeros(2) == [0, 0];
      var v := DecodeEntry(x, font, eol).value;
      assert v + "" == v;
    }
  }

  // ---------------------------------------------------------------------
  // What each kind of lead byte emits (Program.cs:527-622)

  /** Decoding one complete unit at the front of an entry. */
  lemma DecodeUnitThen(u: seq<byte>, rest: seq<byte>, piece: string, font: FontTable, eol: bool)
    requires |u| > 0 && DecodeStep(u, 0, Names(font), eol) == Ok((piece, |u|))
    ensures DecodeEntry(u + rest, font, eol) == Prepend(piece, DecodeEntry(rest, font, eol))
  {
    assert piece + "" == piece;
    assert DecodeFrom(u, |u|, Names(font), eol) == Ok("");
    assert DecodeFrom(u, 0, Names(font), eol) == Prepend(piece, DecodeFrom(u, |u|, Names(font), eol));
    DecodeAppend(u, rest, font, eol);
  }

  /** A zero byte emits nothing; any other byte below 0xC0 is a one-byte
      glyph looked up in `kanji`, then `specialCharacters`, then printed as
      `{XX}`; the scan then moves on by one byte. */
  lemma DecodeSingleByte(b: byte, rest: seq<byte>, font: FontTable, eol: bool)
    requires b < 0xC0
    ensures b == 0 ==> DecodeEntry([b] + rest, font, eol) == DecodeEntry(rest, font, eol)
    ensures b != 0 && (b as int as u16) in font.kanji ==>
              DecodeEntry([b] + rest, font, eol) == Prepend([font.kanji[b as int as u16]], DecodeEntry(rest, font, eol))
    ensures b != 0 && (b as int as u16) !in font.kanji && (b as int as u16) in font.special ==>
              DecodeEntry([b] + rest, font, eol) == Prepend(font.special[b as int as u16], DecodeEntry(rest, font, eol))
    ensures b != 0 && (b as int as u16) !in font.kanji && (b as int as u16) !in font.special ==>
              DecodeEntry([b] + rest, font, eol) == Prepend("{" + Hex2(b) + "}", DecodeEntry(rest, font, eol))
  {
    var u: seq<byte> := [b];
    if b == 0 {
      assert DecodeStep(u, 0, Names(font), eol) == Ok(("", 1));
      DecodeUnitThen(u, rest, "", font, eol);
      PrependNil(DecodeEntry(rest, font, eol));
    } else {
      var piece := LookupGlyph(font, b as int as u16, "{" + Hex2(b) + "}");
      assert DecodeStep(u, 0, Names(font), eol) == Ok((piece, 1));
      DecodeUnitThen(u, rest, piece, font, eol);
    }
  }

  /** `EE A3 BF` is a line break, printed as a newline, preceded by the
      token `{EEA3BF}` when `printEndOfLine` is set; any other `EE A3 xx`
      is printed as its token. Both advance three bytes. */
  lemma DecodeOpcode3(x: byte, rest: seq<byte>, font: FontTable, eol: bool)
    ensures x == 0xBF ==>
              DecodeEntry([0xEE, 0xA3, x] + rest, font, eol) == Prepend((if eol then "{EEA3BF}" else "") + "\n", DecodeEntry(rest, font, eol))
    ensures x != 0xBF ==>
              DecodeEntry([0xEE, 0xA3, x] + rest, font, eol) == Prepend("{EEA3" + Hex2(x) + "}", DecodeEntry(rest, font, eol))
  {
    var u: seq<byte> := [0xEE, 0xA3, x];
    assert u[0..3] == u;
    HexStringCons(0xEE, [0xA3, x]);
    HexStringCons(0xA3, [x]);
    HexStringCons(x, []);
    assert Hex2(0xEE) == "EE";
    assert Hex2(0xA3) == "A3";
    assert Hex2(0xBF) == "BF";
    assert Token(u) == "{EEA3" + Hex2(x) + "}";
    if x == 0xBF {
      assert Token(u) == "{EEA3BF}";
    }
    var piece := DecodeStep(u, 0, Names(font), eol).value.0;
    DecodeUnitThen(u, rest, piece, font, eol);
  }

  /** `EE A0 x y` (the player-name code) is printed as its four-byte token
      and advances four bytes. */
  lemma DecodeOpcode4(x: byte, y: byte, rest: seq<byte>, font: FontTable, eol: bool)
    ensures DecodeEntry([0xEE, 0xA0, x, y] + rest, font, eol) ==
            Prepend("{EEA0" + Hex2(x) + Hex2(y) + "}", DecodeEntry(rest, font, eol))
  {
    var u: seq<byte> := [0xEE, 0xA0, x, y];
    assert u[0..4] == u;
    HexStringCons(0xEE, [0xA0, x, y]);
    HexStringCons(0xA0, [x, y]);
    HexStringCons(x, [y]);
    HexStringCons(y, []);
    assert Hex2(0xEE) == "EE";
    assert Hex2(0xA0) == "A0";
    assert Token(u) == "{EEA0" + Hex2(x) + Hex2(y) + "}";
    var piece := DecodeStep(u, 0, Names(font), eol).value.0;
    DecodeUnitThen(u, rest, piece, font, eol);
  }

  /** Any other byte after `EE` is an unknown opcode: nothing is printed
      and the scan resumes at the very next byte. */
  lemma DecodeUnknownOpcode(y: byte, rest: seq<byte>, font: FontTable, eol: bool)
    requires y != 0xA3 && y != 0xA0
    ensures DecodeEntry([0xEE, y] + rest, font, eol) == DecodeEntry([y] + rest, font, eol)
  {
    var d := [0xEE, y] + rest;
    assert DecodeStep(d, 0, Names(font), eol) == Ok(("", 1));
    var e: seq<byte> := [0xEE];
    assert e + ([y] + rest) == d;
    DecodeShift(e, [y] + rest, 0, Names(font), eol);
    PrependNil(DecodeEntry([y] + rest, font, eol));
  }

  /** A lead byte from 0xC0 up, other than `EE`, starts a two-byte glyph
      whose masked index is looked up like a one-byte glyph, with an
      unknown index printed as four hex digits. */
  lemma DecodeTwoByte(b0: byte, b1: byte, rest: seq<byte>, font: FontTable, eol: bool)
    requires b0 >= 0xC0 && b0 != 0xEE
    ensures var k := GlyphIndex(b0, b1);
            DecodeEntry([b0, b1] + rest, font, eol) ==
            Prepend(LookupGlyph(font, k, "{" + HexX2(k as int) + "}"), DecodeEntry(rest, font, eol))
    ensures |HexX2(GlyphIndex(b0, b1) as int)| == 4
  {
    var u: seq<byte> := [b0, b1];
    var piece := DecodeStep(u, 0, Names(font), eol).value.0;
    DecodeUnitThen(u, rest, piece, font, eol);
    var k := GlyphIndex(b0, b1) as int;
    var k1 := k / 16;
    var k2 := k1 / 16;
    var k3 := k2 / 16;
    assert k3 / 16 == 0 && k3 > 0;
    assert |HexDigits(k3)| == 1;
    assert |HexDigits(k2)| == 2;
    assert |HexDigits(k1)| == 3;
  }

  /** An entry cut short inside a glyph or an opcode is an error, not a
      partial result. */
  lemma DecodeTruncated(b: byte, x: byte, font: FontTable, eol: bool)
    requires b >= 0xC0
    ensures DecodeEntry([b], font, eol) == Err(ReadPastEnd)
    ensures DecodeEntry([0xEE, 0xA3], font, eol) == Err(ReadPastEnd)
    ensures DecodeEntry([0xEE, 0xA0], font, eol) == Err(ReadPastEnd)
    ensures DecodeEntry([0xEE, 0xA0, x], font, eol) == Err(ReadPastEnd)
  {
  }
}
