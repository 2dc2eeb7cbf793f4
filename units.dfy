/** The round trip between the decoder (.MSG bytes to display text) and
    the encoder (edited text back to bytes). An entry is viewed as a
    sequence of units, each one a glyph, an unknown one-byte glyph or an
    opcode; the lemmas here say which units survive both directions. */
module Units {
  import opened Wrappers
  import opened Bytes
  import opened Font
  import opened Decoder
  import opened Encoder
  import opened Tsv
  import opened Convert

  datatype Unit =
    | Glyph(c: char)             // a character of the `kanji` table
    | Placeholder(b: byte)       // a one-byte code missing from the font, shown as {XX}
    | Opcode3(x: byte)           // EE A3 x with x != BF
    | LineBreak                  // EE A3 BF
    | Opcode4(x: byte, y: byte)  // EE A0 x y

  /** The units both directions agree on: a glyph whose character the
      encoder finds in `kanji` under an index the decoder reads back, and
      a placeholder byte the font does not know. */
  predicate Encodable(font: FontTable, u: Unit)
  {
    match u
    case Glyph(c) =>
      var k := ReverseLookup(font, c);
      c != '{' && k in font.kanji && font.kanji[k] == c &&
      (0 < k < 0xC0 || (k >= 256 && TwoByteRoundTrips(k)))
    case Placeholder(b) =>
      0 < b < 0xC0 && (b as int as u16) !in font.kanji && (b as int as u16) !in font.special
    case Opcode3(x) => x != 0xBF
    case LineBreak => true
    case Opcode4(_, _) => true
  }

  /** The bytes of a unit in a .MSG entry. */
  function UnitBytes(font: FontTable, u: Unit): seq<byte>
  {
    match u
    case Glyph(c) => GlyphBytes(ReverseLookup(font, c))
    case Placeholder(b) => [b]
    case Opcode3(x) => [0xEE, 0xA3, x]
    case LineBreak => [0xEE, 0xA3, 0xBF]
    case Opcode4(x, y) => [0xEE, 0xA0, x, y]
  }

  /** The text `ParseEntry` prints for a unit. */
  function UnitText(u: Unit, eol: bool): string
  {
    match u
    case Glyph(c) => [c]
    case Placeholder(b) => "{" + Hex2(b) + "}"
    case Opcode3(x) => "{EEA3" + Hex2(x) + "}"
    case LineBreak => (if eol then "{EEA3BF}" else "") + "\n"
    case Opcode4(x, y) => "{EEA0" + Hex2(x) + Hex2(y) + "}"
  }

  /** The text the encoder is given for a unit once the TSV splitter has
      turned line breaks into `{EEA3BF}`. */
  function UnitSource(u: Unit): string
  {
    if u.LineBreak? then "{EEA3BF}" else UnitText(u, false)
  }

  function UnitsBytes(font: FontTable, us: seq<Unit>): seq<byte>
  {
    if us == [] then [] else UnitBytes(font, us[0]) + UnitsBytes(font, us[1..])
  }

  function UnitsText(us: seq<Unit>, eol: bool): string
  {
    if us == [] then "" else UnitText(us[0], eol) + UnitsText(us[1..], eol)
  }

  function UnitsSource(us: seq<Unit>): string
  {
    if us == [] then "" else UnitSource(us[0]) + UnitsSource(us[1..])
  }

  /** The escape tokens the decoder prints are the tokens of the opcode
      bytes. */
  lemma OpcodeTokens(x: byte, y: byte)
    ensures Token([0xEE, 0xA3, x]) == "{EEA3" + Hex2(x) + "}"
    ensures Token([0xEE, 0xA3, 0xBF]) == "{EEA3BF}"
    ensures Token([0xEE, 0xA0, x, y]) == "{EEA0" + Hex2(x) + Hex2(y) + "}"
    ensures Token([x]) == "{" + Hex2(x) + "}"
  {
    HexStringCons(0xEE, [0xA3, x]);
    HexStringCons(0xA3, [x]);
    HexStringCons(x, []);
    HexStringCons(0xEE, [0xA3, 0xBF]);
    HexStringCons(0xA3, [0xBF]);
    HexStringCons(0xBF, []);
    HexStringCons(0xEE, [0xA0, x, y]);
    HexStringCons(0xA0, [x, y]);
    HexStringCons(x, [y]);
    HexStringCons(y, []);
    assert Hex2(0xEE) == "EE";
    assert Hex2(0xA3) == "A3";
    assert Hex2(0xA0) == "A0";
    assert Hex2(0xBF) == "BF";
  }

  lemma UnitDecodes(font: FontTable, u: Unit, rest: seq<byte>, eol: bool)
    requires Encodable(font, u)
    ensures DecodeEntry(UnitBytes(font, u) + rest, font, eol) == Prepend(UnitText(u, eol), DecodeEntry(rest, font, eol))
  {
    match u
    case Glyph(c) =>
      DecodeGlyphBytes(ReverseLookup(font, c), rest, font, eol);
    case Placeholder(b) =>
      DecodeSingleByte(b, rest, font, eol);
    case Opcode3(x) =>
      DecodeOpcode3(x, rest, font, eol);
    case LineBreak =>
      DecodeOpcode3(0xBF, rest, font, eol);
    case Opcode4(x, y) =>
      DecodeOpcode4(x, y, rest, font, eol);
  }

  lemma UnitEncodes(font: FontTable, u: Unit, rest: string)
    requires Encodable(font, u)
    ensures EncodeEntry(UnitSource(u) + rest, font) == Prepend(UnitBytes(font, u), EncodeEntry(rest, font))
  {
    match u
    case Glyph(c) =>
      EncodeChar(c, rest, font);
    case Placeholder(b) =>
      OpcodeTokens(b, 0);
      EncodeToken([b], rest, font);
    case Opcode3(x) =>
      OpcodeTokens(x, 0);
      EncodeToken([0xEE, 0xA3, x], rest, font);
    case LineBreak =>
      OpcodeTokens(0, 0);
      EncodeToken([0xEE, 0xA3, 0xBF], rest, font);
    case Opcode4(x, y) =>
      OpcodeTokens(x, y);
      EncodeToken([0xEE, 0xA0, x, y], rest, font);
  }

  /** Decoding the bytes of encodable units prints their text. */
  lemma {:induction false} DecodeUnits(font: FontTable, us: seq<Unit>, eol: bool)
    requires forall i :: 0 <= i < |us| ==> Encodable(font, us[i])
    ensures DecodeEntry(UnitsBytes(font, us), font, eol) == Ok(UnitsText(us, eol))
  {
    if us != [] {
      DecodeUnits(font, us[1..], eol);
      UnitDecodes(font, us[0], UnitsBytes(font, us[1..]), eol);
    }
  }

  /** Encoding the source text of encodable units writes their bytes. */
  lemma {:induction false} EncodeUnits(font: FontTable, us: seq<Unit>)
    requires forall i :: 0 <= i < |us| ==> Encodable(font, us[i])
    ensures EncodeEntry(UnitsSource(us), font) == Ok(UnitsBytes(font, us))
  {
    if us == [] {
      assert EncodeEntry("", font) == Ok([]);
    } else {
      EncodeUnits(font, us[1..]);
      UnitEncodes(font, us[0], UnitsSource(us[1..]));
    }
  }

  // ---------------------------------------------------------------------
  // Line breaks as the TSV splitter writes them

  predicate NoNewlineGlyph(u: Unit)
  {
    u != Glyph('\n')
  }

  lemma UnitSourceOfText(u: Unit)
    requires NoNewlineGlyph(u)
    ensures UnitSource(u) == ReplaceNewlines(UnitText(u, false))
  {
    if u.LineBreak? {
      assert ReplaceNewlines("\n") == "{EEA3BF}" + ReplaceNewlines("");
    } else {
      var t := UnitText(u, false);
      match u {
        case Glyph(c) =>
        case Placeholder(b) =>
          assert forall i :: 0 <= i < |t| ==> t[i] != '\n' by {
            assert t == "{" + Hex2(b) + "}";
          }
        case Opcode3(x) =>
          assert forall i :: 0 <= i < |t| ==> t[i] != '\n' by {
            assert t == "{EEA3" + Hex2(x) + "}";
          }
        case Opcode4(x, y) =>
          var h := Hex2(x) + Hex2(y);
          assert forall i :: 0 <= i < |h| ==> h[i] != '\n';
          assert forall i :: 0 <= i < |t| ==> t[i] != '\n' by {
            assert t == "{EEA0" + h + "}";
          }
      }
      ReplaceNewlinesId(t);
    }
  }

  lemma {:induction false} SourceOfText(us: seq<Unit>)
    requires forall i :: 0 <= i < |us| ==> NoNewlineGlyph(us[i])
    ensures UnitsSource(us) == ReplaceNewlines(UnitsText(us, false))
  {
    if us != [] {
      SourceOfText(us[1..]);
      UnitSourceOfText(us[0]);
      ReplaceNewlinesAppend(UnitText(us[0], false), UnitsText(us[1..], false));
    }
  }

  /** Decode, write the newlines as `{EEA3BF}`, encode: for an entry made
      of encodable units the original bytes come back. */
  lemma BytesRoundTrip(font: FontTable, us: seq<Unit>)
    requires forall i :: 0 <= i < |us| ==> Encodable(font, us[i]) && NoNewlineGlyph(us[i])
    ensures var d := DecodeEntry(UnitsBytes(font, us), font, false);
            d.Ok? && EncodeEntry(ReplaceNewlines(d.value), font) == Ok(UnitsBytes(font, us))
  {
    DecodeUnits(font, us, false);
    SourceOfText(us);
    EncodeUnits(font, us);
  }

  // ---------------------------------------------------------------------
  // A two-byte code the font does not know does not survive

  lemma HexX2Digits(v: int)
    requires 0x8000 <= v < 0x1_0000
    ensures HexX2(v) == [HexDigit(v / 4096), HexDigit(v / 256 % 16), HexDigit(v / 16 % 16), HexDigit(v % 16)]
  {
    var v1 := v / 16;
    var v2 := v1 / 16;
    var v3 := v2 / 16;
    assert v3 == v / 4096 && v2 % 16 == v / 256 % 16 && 8 <= v3 < 16;
    assert HexDigits(v3) == [HexDigit(v3)] by {
      assert v3 / 16 == 0 && v3 % 16 == v3;
    }
    assert HexDigits(v2) == [HexDigit(v3), HexDigit(v2 % 16)];
    assert HexDigits(v1) == [HexDigit(v3), HexDigit(v2 % 16), HexDigit(v1 % 16)];
    assert HexDigits(v) == [HexDigit(v3), HexDigit(v2 % 16), HexDigit(v1 % 16), HexDigit(v % 16)];
  }

  lemma HexDigitPair(a: int, b: int)
    requires 0 <= a < 16 && 0 <= b < 16
    ensures ParseHexPair(HexDigit(a), HexDigit(b)) == Some((16 * a + b) as byte)
  {
  }

  lemma HexPairsOfFour(s: string)
    requires |s| == 4 && ParseHexPair(s[0], s[1]).Some? && ParseHexPair(s[2], s[3]).Some?
    ensures HexPairs(s) == ([ParseHexPair(s[0], s[1]).value, ParseHexPair(s[2], s[3]).value], true)
  {
    var t := s[2..];
    assert |t| == 2 && t[0] == s[2] && t[1] == s[3];
    assert HexPairs(t[2..]) == ([], true);
    HexPairsCons(t);
    var b2 := ParseHexPair(s[2], s[3]).value;
    assert HexPairs(t) == ([b2], true) by {
      assert [b2] + [] == [b2];
    }
    HexPairsCons(s);
    var b1 := ParseHexPair(s[0], s[1]).value;
    assert [b1] + [b2] == [b1, b2];
  }

  lemma HighDigitsPair(k: u16)
    ensures ParseHexPair(HexDigit(k as int / 4096), HexDigit(k as int / 256 % 16)) == Some(HighByte(k))
  {
    var v := k as int;
    HexDigitPair(v / 4096, v / 256 % 16);
    assert 16 * (v / 4096) + v / 256 % 16 == v / 256;
  }

  lemma LowDigitsPair(k: u16)
    ensures ParseHexPair(HexDigit(k as int / 16 % 16), HexDigit(k as int % 16)) == Some(LowByte(k))
  {
    var v := k as int;
    HexDigitPair(v / 16 % 16, v % 16);
    assert 16 * (v / 16 % 16) + v % 16 == v % 256;
  }

  lemma HexX2Pairs(k: u16)
    requires k >= 0x8000
    ensures HexPairs(HexX2(k as int)) == ([HighByte(k), LowByte(k)], true)
  {
    var s := HexX2(k as int);
    HexX2Digits(k as int);
    HighDigitsPair(k);
    LowDigitsPair(k);
    HexPairsOfFour(s);
  }

  /** The decoder prints an unknown two-byte glyph as the 16-bit index
      it masked out of the bytes. */
  lemma UnknownTwoByteDecodes(b0: byte, b1: byte, font: FontTable)
    requires b0 >= 0xC0 && b0 != 0xEE
    requires GlyphIndex(b0, b1) !in font.kanji && GlyphIndex(b0, b1) !in font.special
    ensures DecodeEntry([b0, b1], font, false) == Ok("{" + HexX2(GlyphIndex(b0, b1) as int) + "}")
  {
    var u: seq<byte> := [b0, b1];
    DecodeTwoByte(b0, b1, [], font, false);
    assert u + [] == u;
    assert DecodeEntry([], font, false) == Ok("");
    var t := "{" + HexX2(GlyphIndex(b0, b1) as int) + "}";
    assert t + "" == t;
  }

  /** The encoder reads that placeholder as two raw bytes: the high and
      the low byte of the index. */
  lemma PlaceholderEncodes(k: u16, font: FontTable)
    requires k >= 0x8000
    ensures EncodeEntry("{" + HexX2(k as int) + "}", font) == Ok([HighByte(k), LowByte(k)])
  {
    var s := HexX2(k as int);
    HexX2Pairs(k);
    assert '}' !in s;
    EncodeEscape(s, "", font);
    assert "{" + s + "}" + "" == "{" + s + "}";
    assert EncodeEntry("", font) == Ok([]);
    assert [HighByte(k), LowByte(k)] + [] == [HighByte(k), LowByte(k)];
  }

  /** The bytes the placeholder encodes to are the masked ones. */
  lemma MaskedBytes(b0: byte, b1: byte)
    requires b0 >= 0xC0
    ensures var k := GlyphIndex(b0, b1);
            k >= 0x8000 && HighByte(k) == ClearBit(b0, 0x40) && LowByte(k) == ClearBit(b1, 0x80)
    ensures ClearBit(b0, 0x40) != b0
  {
    ClearSetBit(b0, 0x40);
    assert HasBit(b0, 0x40) by {
      assert b0 as int / 0x40 == 3;
    }
  }

  /** So an unknown two-byte glyph never survives a decode and re-encode:
      the bytes that come back are the masked ones, and the first has lost
      bit 6. */
  lemma UnknownTwoByteChanges(b0: byte, b1: byte, font: FontTable)
    requires b0 >= 0xC0 && b0 != 0xEE
    requires GlyphIndex(b0, b1) !in font.kanji && GlyphIndex(b0, b1) !in font.special
    ensures var d := DecodeEntry([b0, b1], font, false);
            d.Ok? && EncodeEntry(d.value, font) == Ok([ClearBit(b0, 0x40), ClearBit(b1, 0x80)]) &&
            EncodeEntry(d.value, font) != Ok([b0, b1])
  {
    var k := GlyphIndex(b0, b1);
    UnknownTwoByteDecodes(b0, b1, font);
    MaskedBytes(b0, b1);
    PlaceholderEncodes(k, font);
  }

  // ---------------------------------------------------------------------
  // Worked examples

  /** A table where 'A' is the one-byte glyph 0x41 and 'B' the one-byte
      glyph 0x10. */
  predicate SampleFont(font: FontTable)
  {
    font.kanji == map[0x41 := 'A', 0x10 := 'B'] && font.kanjiOrder == [0x41, 0x10]
  }

  lemma SampleLookups(font: FontTable)
    requires SampleFont(font)
    ensures ReverseLookup(font, 'A') == 0x41 && ReverseLookup(font, 'B') == 0x10
  {
    assert MatchesAt(font.kanjiOrder, font.kanji, 'A', 0);
    FindKanjiAt(font.kanjiOrder, font.kanji, 'A', 0, 0);
    assert MatchesAt(font.kanjiOrder, font.kanji, 'B', 1);
    assert !MatchesAt(font.kanjiOrder, font.kanji, 'B', 0);
    FindKanjiAt(font.kanjiOrder, font.kanji, 'B', 0, 1);
  }

  lemma SampleTail(font: FontTable)
    requires SampleFont(font)
    ensures EncodeEntry("{EEA3BF}B", font) == Ok([0xEE, 0xA3, 0xBF, 0x10])
  {
    SampleLookups(font);
    assert EncodeEntry("", font) == Ok([]);
    EncodeChar('B', "", font);
    assert ['B'] + "" == "B";
    var g: seq<byte> := GlyphBytes(0x10);
    OneByteGlyph(0x10);
    assert Prepend<byte, EncodeError>(g, Ok([])) == Ok(g + []);
    assert g + [] == g;
    assert EncodeEntry("B", font) == Ok([0x10]);
    var op: seq<byte> := [0xEE, 0xA3, 0xBF];
    OpcodeTokens(0, 0);
    assert Token(op) == "{EEA3BF}";
    EncodeToken(op, "B", font);
    assert Token(op) + "B" == "{EEA3BF}B";
    assert EncodeEntry("{EEA3BF}B", font) == Prepend(op, EncodeEntry("B", font));
    assert Prepend<byte, EncodeError>(op, Ok([0x10])) == Ok(op + [0x10]);
    assert op + [0x10] == [0xEE, 0xA3, 0xBF, 0x10];
  }

  /** "A{EEA3BF}B" is written as 41, the line-break opcode verbatim, 10,
      and the terminator. */
  lemma SampleEncoding(font: FontTable)
    requires SampleFont(font)
    ensures EncodeBody("A{EEA3BF}B", font) == Ok([0x41, 0xEE, 0xA3, 0xBF, 0x10, 0x00, 0x00])
  {
    var body: seq<byte> := [0x41, 0xEE, 0xA3, 0xBF, 0x10];
    SampleEntry(font);
    assert body + [0, 0] == [0x41, 0xEE, 0xA3, 0xBF, 0x10, 0x00, 0x00];
  }

  lemma SampleEntry(font: FontTable)
    requires SampleFont(font)
    ensures EncodeEntry("A{EEA3BF}B", font) == Ok([0x41, 0xEE, 0xA3, 0xBF, 0x10])
  {
    SampleHead(font);
    SampleTail(font);
    SampleBytes();
  }

  /** The sample's bytes, glyph A first. */
  lemma SampleBytes()
    ensures [0x41 as byte] + [0xEE as byte, 0xA3, 0xBF, 0x10] == [0x41 as byte, 0xEE, 0xA3, 0xBF, 0x10]
  {
  }

  lemma SampleHead(font: FontTable)
    requires SampleFont(font)
    ensures EncodeEntry("A{EEA3BF}B", font) == Prepend([0x41], EncodeEntry("{EEA3BF}B", font))
  {
    assert ['A'] + "{EEA3BF}B" == "A{EEA3BF}B";
    SampleLookups(font);
    EncodeChar('A', "{EEA3BF}B", font);
    OneByteGlyph(0x41);
  }

  /** The player-name code EE A0 81 00 is printed as its token, never
      looked up in the font. */
  lemma SampleNameCode(font: FontTable, eol: bool)
    ensures DecodeEntry([0xEE, 0xA0, 0x81, 0x00], font, eol) == Ok("{EEA08100}")
  {
    var u: seq<byte> := [0xEE, 0xA0, 0x81, 0x00];
    DecodeOpcode4(0x81, 0x00, [], font, eol);
    assert u + [] == u;
    assert DecodeEntry([], font, eol) == Ok("");
    assert Hex2(0x81) == "81" by {
      assert HexDigit(8) == '8' && HexDigit(1) == '1';
    }
    assert Hex2(0x00) == "00" by {
      assert HexDigit(0) == '0';
    }
    var t := "{EEA0" + Hex2(0x81) + Hex2(0x00) + "}";
    assert t == "{EEA08100}";
    assert t + "" == t;
  }
}
