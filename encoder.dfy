/** The entry encoder of `ConvertToMsg` (Program.cs:710-784): text is
    turned back into .MSG bytes character by character; a brace-delimited
    run of hex pairs is written verbatim, every other character goes
    through the reverse font lookup. */
module Encoder {
  import opened Wrappers
  import opened Bytes
  import opened Font
  import opened Decoder

  /** `IndexOf('}', i)` found nothing: the `Substring` call that follows
      gets a negative length and throws outside the `try`. */
  datatype EncodeError = UnclosedBrace

  // ---------------------------------------------------------------------
  // Glyph bytes (Program.cs:763-783)

  function HighByte(k: u16): byte { (k as int / 256) as byte }
  function LowByte(k: u16): byte { (k as int % 256) as byte }

  /** The bytes written for font index k: the index big-endian, one byte
      when its high byte is zero, otherwise two bytes with bit 6 set in the
      first and bit 7 set in the second. */
  function GlyphBytes(k: u16): (r: seq<byte>)
    ensures |r| == 1 <==> k < 256
    ensures |r| == 1 ==> r[0] as int == k as int
    ensures |r| != 1 ==> |r| == 2 && HasBit(r[0], 0x40) && HasBit(r[1], 0x80)
    ensures |r| == 2 ==> r[0] as int % 0x40 == (k as int / 256) % 0x40 &&
                         (r[0] as int >= 0x80 <==> k as int >= 0x8000) &&
                         r[1] as int % 0x80 == k as int % 0x80
  {
    var hi, lo := HighByte(k), LowByte(k);
    if hi == 0 then [lo] else [SetBit(hi, 0x40), SetBit(lo, 0x80)]
  }

  /** An index below 256 is written as its one byte. */
  lemma OneByteGlyph(k: u16)
    requires k < 256
    ensures GlyphBytes(k) == [k as int as byte]
  {
    var r := GlyphBytes(k);
    assert |r| == 1 && r[0] as int == k as int;
  }

  lemma ClearSetBit(x: byte, m: int)
    requires IsBitMask(m)
    ensures ClearBit(SetBit(x, m), m) == ClearBit(x, m)
    ensures ClearBit(x, m) == x <==> !HasBit(x, m)
  {
  }

  /** The two-byte indices the encoder writes and the decoder reads back
      as the same index: the high byte must have bit 7 set (so the lead
      byte is at least 0xC0) and bit 6 clear, the low byte must have bit 7
      clear (both are masked away when decoding), and the lead byte must
      not be the opcode byte 0xEE. */
  predicate TwoByteRoundTrips(k: u16)
  {
    HasBit(HighByte(k), 0x80) && !HasBit(HighByte(k), 0x40) && !HasBit(LowByte(k), 0x80) &&
    SetBit(HighByte(k), 0x40) != 0xEE
  }

  /** The decoder's index mask inverts the encoder's bit setting exactly
      for those indices. */
  lemma GlyphIndexInverts(k: u16)
    requires k >= 256
    ensures var b := GlyphBytes(k);
            (b[0] >= 0xC0 && b[0] != 0xEE && GlyphIndex(b[0], b[1]) == k) <==> TwoByteRoundTrips(k)
  {
    var hi, lo := HighByte(k), LowByte(k);
    var b := GlyphBytes(k);
    ClearSetBit(hi, 0x40);
    ClearSetBit(lo, 0x80);
    assert k as int == hi as int * 256 + lo as int;
    assert b[0] >= 0xC0 <==> HasBit(hi, 0x80) by {
      assert HasBit(b[0], 0x40);
      assert HasBit(b[0], 0x80) <==> HasBit(hi, 0x80);
    }
    if GlyphIndex(b[0], b[1]) == k {
      assert ClearBit(hi, 0x40) as int * 256 + ClearBit(lo, 0x80) as int == hi as int * 256 + lo as int;
    }
  }

  /** What the decoder makes of an index written by the encoder: a
      one-byte index below 0xC0 and a two-byte index that round-trips are
      read back as the same index. */
  lemma DecodeGlyphBytes(k: u16, rest: seq<byte>, font: FontTable, eol: bool)
    requires 0 < k < 0xC0 || (k >= 256 && TwoByteRoundTrips(k))
    ensures k < 0xC0 ==>
              DecodeEntry(GlyphBytes(k) + rest, font, eol) ==
              Prepend(LookupGlyph(font, k, "{" + Hex2(k as int as byte) + "}"), DecodeEntry(rest, font, eol))
    ensures k >= 256 ==>
              DecodeEntry(GlyphBytes(k) + rest, font, eol) ==
              Prepend(LookupGlyph(font, k, "{" + HexX2(k as int) + "}"), DecodeEntry(rest, font, eol))
  {
    var b := GlyphBytes(k);
    if k < 0xC0 {
      assert b == [k as int as byte];
      DecodeSingleByte(k as int as byte, rest, font, eol);
    } else {
      GlyphIndexInverts(k);
      assert b == [b[0], b[1]];
      DecodeTwoByte(b[0], b[1], rest, font, eol);
    }
  }

  // ---------------------------------------------------------------------
  // Escape tokens (Program.cs:723-753)

  /** `s.IndexOf(c, from)`: the first position at or after `from` holding
      c, or -1 (see `IndexOfFirst`). */
  function IndexOfFrom(s: string, c: char, from: nat): (r: int)
    ensures r == -1 || from <= r < |s|
    decreases |s| - from
  {
    if from >= |s| then -1
    else if s[from] == c then from
    else IndexOfFrom(s, c, from + 1)
  }

  /** -1 means c does not occur from `from` on; anything else is the
      first position from `from` on that holds c. */
  lemma {:induction false} IndexOfFirst(s: string, c: char, from: nat)
    ensures var r := IndexOfFrom(s, c, from);
            (r == -1 <==> forall j :: from <= j < |s| ==> s[j] != c) &&
            (r != -1 ==> s[r] == c && forall j :: from <= j < r ==> s[j] != c)
    decreases |s| - from
  {
    if from < |s| && s[from] != c {
      IndexOfFirst(s, c, from + 1);
    }
  }

  /** The j-th pair of characters of an escape code is accepted by
      `Convert.ToUInt16(_, 16)`. */
  predicate PairAt(code: string, j: nat)
  {
    2 * j + 2 <= |code| && ParseHexPair(code[2 * j], code[2 * j + 1]).Some?
  }

  function PairValue(code: string, j: nat): byte
    requires PairAt(code, j)
  {
    ParseHexPair(code[2 * j], code[2 * j + 1]).value
  }

  /** The inner loop over the escape code: the bytes it writes before it
      finishes or throws, and whether it finished (see `HexPairsSpec`). */
  function HexPairs(code: string): (r: (seq<byte>, bool))
    ensures |r.0| <= |code| / 2
    decreases |code|
  {
    if |code| < 2 then ([], |code| == 0)
    else
      match ParseHexPair(code[0], code[1])
      case None => ([], false)
      case Some(b) =>
        var tail := HexPairs(code[2..]);
        ([b] + tail.0, tail.1)
  }

  /** The loop writes the leading accepted pairs in order; it finishes
      exactly when the code has even length and every pair is accepted,
      having written one byte per pair; when it throws, the pair after
      the written ones is missing or rejected. */
  lemma {:induction false} HexPairsSpec(code: string)
    ensures var (w, ok) := HexPairs(code);
            (forall j :: 0 <= j < |w| ==> PairAt(code, j) && w[j] == PairValue(code, j)) &&
            (ok <==> |code| % 2 == 0 && forall j :: 0 <= j < |code| / 2 ==> PairAt(code, j)) &&
            (ok ==> |w| == |code| / 2) &&
            (!ok ==> !PairAt(code, |w|))
    decreases |code|
  {
    if |code| >= 2 {
      if ParseHexPair(code[0], code[1]).None? {
        assert !PairAt(code, 0);
      } else {
        HexPairsSpec(code[2..]);
        PairsShift(code);
      }
    }
  }

  lemma HexPairsCons(code: string)
    requires |code| >= 2 && ParseHexPair(code[0], code[1]).Some?
    ensures HexPairs(code) == ([ParseHexPair(code[0], code[1]).value] + HexPairs(code[2..]).0, HexPairs(code[2..]).1)
  {
  }

  /** Pair j + 1 of a code is pair j of the code without its first two
      characters. */
  lemma PairsShift(code: string)
    requires |code| >= 2
    ensures forall j: nat :: PairAt(code[2..], j) <==> PairAt(code, j + 1)
    ensures forall j: nat :: 1 <= j ==> (PairAt(code, j) <==> PairAt(code[2..], j - 1))
    ensures forall j: nat :: PairAt(code[2..], j) ==> PairValue(code[2..], j) == PairValue(code, j + 1)
  {
  }

  /** Printing bytes in hex and parsing the pairs back gives the same bytes. */
  lemma {:induction false} HexPairsOfHexString(bs: seq<byte>)
    ensures HexPairs(HexString(bs)) == (bs, true)
  {
    if bs != [] {
      var s := HexString(bs);
      var h := Hex2(bs[0]);
      assert s == h + HexString(bs[1..]);
      assert s[2..] == HexString(bs[1..]);
      HexPairsOfHexString(bs[1..]);
      assert [bs[0]] + bs[1..] == bs;
    }
  }

  // ---------------------------------------------------------------------
  // The encoding scan

  /** The bytes one pass of the encoding loop writes at position i and
      how many characters it consumes: a whole escape when its code
      parses, otherwise the one character. The scan is written over
      `glyph`, the bytes of a display character, which `EncodeEntry` takes
      from the font (`Glyphs`). */
  function EncodeStep(text: string, i: nat, glyph: char -> seq<byte>): (r: Result<(seq<byte>, nat), EncodeError>)
    requires i < |text|
    ensures r.Ok? ==> 1 <= r.value.1 && i + r.value.1 <= |text|
  {
    if text[i] == '{' then
      var close := IndexOfFrom(text, '}', i);
      if close < 0 then Err(UnclosedBrace)
      else
        var (written, ok) := HexPairs(text[i + 1..close]);
        if ok then Ok((written, close + 1 - i))
        else Ok((written + glyph('{'), 1))
    else Ok((glyph(text[i]), 1))
  }

  /** The bytes the encoding loop writes for `text[i..]`. */
  function EncodeFrom(text: string, i: nat, glyph: char -> seq<byte>): Result<seq<byte>, EncodeError>
    decreases |text| - i
  {
    if i >= |text| then Ok([])
    else
      var st := EncodeStep(text, i, glyph);
      if st.Err? then Err(st.error)
      else Prepend(st.value.0, EncodeFrom(text, i + st.value.1, glyph))
  }

  /** The bytes written for a display character: the glyph bytes of the
      key of the first pair of `fontChars` holding it (Program.cs:706,
      751, 758). */
  function Glyphs(font: FontTable): char -> seq<byte>
  {
    c => GlyphBytes(ReverseLookup(font, c))
  }

  /** The bytes of one entry, before its `00 00` terminator. */
  function EncodeEntry(text: string, font: FontTable): Result<seq<byte>, EncodeError>
  {
    EncodeFrom(text, 0, Glyphs(font))
  }

  /** One step of `EncodeFrom`, unfolded. */
  lemma EncodeFromStep(text: string, i: nat, glyph: char -> seq<byte>)
    requires i < |text|
    ensures EncodeStep(text, i, glyph).Err? ==> EncodeFrom(text, i, glyph) == Err(EncodeStep(text, i, glyph).error)
    ensures EncodeStep(text, i, glyph).Ok? ==>
              EncodeFrom(text, i, glyph) ==
              Prepend(EncodeStep(text, i, glyph).value.0, EncodeFrom(text, i + EncodeStep(text, i, glyph).value.1, glyph))
  {
  }

  lemma {:induction false} IndexOfShift(p: string, rest: string, c: char, j: nat)
    requires j <= |rest|
    ensures IndexOfFrom(p + rest, c, |p| + j) ==
            if IndexOfFrom(rest, c, j) < 0 then -1 else |p| + IndexOfFrom(rest, c, j)
    decreases |rest| - j
  {
    if j < |rest| {
      assert (p + rest)[|p| + j] == rest[j];
      if rest[j] != c {
        IndexOfShift(p, rest, c, j + 1);
      }
    }
  }

  lemma EncodeStepShift(p: string, rest: string, j: nat, glyph: char -> seq<byte>)
    requires j < |rest|
    ensures EncodeStep(p + rest, |p| + j, glyph) == EncodeStep(rest, j, glyph)
  {
    var t := p + rest;
    assert t[|p| + j] == rest[j];
    if rest[j] == '{' {
      BraceStepShift(p, rest, j, glyph);
    }
  }

  /** The same for a step at a '{'. */
  lemma BraceStepShift(p: string, rest: string, j: nat, glyph: char -> seq<byte>)
    requires j < |rest| && rest[j] == '{'
    ensures EncodeStep(p + rest, |p| + j, glyph) == EncodeStep(rest, j, glyph)
  {
    var t := p + rest;
    assert t[|p| + j] == '{';
    IndexOfShift(p, rest, '}', j);
    var close := IndexOfFrom(rest, '}', j);
    if close >= 0 {
      assert t[|p| + j + 1..|p| + close] == rest[j + 1..close];
    }
  }

  /** Text in front of the scan position does not change what follows. */
  lemma {:induction false} EncodeShift(p: string, rest: string, j: nat, glyph: char -> seq<byte>)
    requires j <= |rest|
    ensures EncodeFrom(p + rest, |p| + j, glyph) == EncodeFrom(rest, j, glyph)
    decreases |rest| - j
  {
    if j < |rest| {
      EncodeStepShift(p, rest, j, glyph);
      var st := EncodeStep(rest, j, glyph);
      if st.Ok? {
        EncodeShift(p, rest, j + st.value.1, glyph);
      }
    }
  }

  /** The same from the start of the text after the prefix. */
  lemma EncodeSkip(p: string, rest: string, glyph: char -> seq<byte>)
    ensures EncodeFrom(p + rest, |p|, glyph) == EncodeFrom(rest, 0, glyph)
  {
    EncodeShift(p, rest, 0, glyph);
  }

  lemma {:induction false} IndexOfAppend(a: string, b: string, c: char, i: nat)
    requires i <= |a| && IndexOfFrom(a, c, i) >= 0
    ensures IndexOfFrom(a + b, c, i) == IndexOfFrom(a, c, i)
    decreases |a| - i
  {
    assert (a + b)[i] == a[i];
    if a[i] != c {
      IndexOfAppend(a, b, c, i + 1);
    }
  }

  lemma EncodeStepAppend(a: string, b: string, i: nat, glyph: char -> seq<byte>)
    requires i < |a| && EncodeStep(a, i, glyph).Ok?
    ensures EncodeStep(a + b, i, glyph) == EncodeStep(a, i, glyph)
  {
    var t := a + b;
    assert t[i] == a[i];
    if a[i] == '{' {
      var close := IndexOfFrom(a, '}', i);
      IndexOfAppend(a, b, '}', i);
      assert t[i + 1..close] == a[i + 1..close];
    }
  }

  /** One pass of the loop over `a` and over `a + b` at a position inside
      `a`: the same bytes, the same advance. */
  lemma EncodeFromStepAppend(a: string, b: string, i: nat, glyph: char -> seq<byte>) returns (bytes: seq<byte>, n: nat)
    requires i < |a| && EncodeFrom(a, i, glyph).Ok?
    ensures i < i + n <= |a| && EncodeFrom(a, i + n, glyph).Ok?
    ensures EncodeFrom(a, i, glyph) == Prepend(bytes, EncodeFrom(a, i + n, glyph))
    ensures EncodeFrom(a + b, i, glyph) == Prepend(bytes, EncodeFrom(a + b, i + n, glyph))
  {
    EncodeStepAppend(a, b, i, glyph);
    EncodeFromStep(a, i, glyph);
    EncodeFromStep(a + b, i, glyph);
    bytes, n := EncodeStep(a, i, glyph).value.0, EncodeStep(a, i, glyph).value.1;
  }

  lemma {:induction false} EncodeFromAppend(a: string, b: string, i: nat, glyph: char -> seq<byte>)
    requires i <= |a| && EncodeFrom(a, i, glyph).Ok?
    ensures EncodeFrom(a + b, i, glyph) == Prepend(EncodeFrom(a, i, glyph).value, EncodeFrom(a + b, |a|, glyph))
    decreases |a| - i
  {
    var x := EncodeFrom(a + b, |a|, glyph);
    if i < |a| {
      var bytes, n := EncodeFromStepAppend(a, b, i, glyph);
      EncodeFromAppend(a, b, i + n, glyph);
      PrependChain(EncodeFrom(a, i, glyph), EncodeFrom(a, i + n, glyph),
                   EncodeFrom(a + b, i, glyph), EncodeFrom(a + b, i + n, glyph), bytes, x);
    } else {
      PrependNil(x);
    }
  }

  /** Text that encodes without error, followed by more text, encodes to
      its own bytes followed by the bytes of the rest. */
  lemma EncodeAppend(a: string, b: string, font: FontTable)
    requires EncodeEntry(a, font).Ok?
    ensures EncodeEntry(a + b, font) == Prepend(EncodeEntry(a, font).value, EncodeEntry(b, font))
  {
    EncodeFromAppend(a, b, 0, Glyphs(font));
    EncodeSkip(a, b, Glyphs(font));
  }

  /** A character other than '{' is written as the glyph bytes of the
      first `kanji` key mapping to it, in table order, and of index 0 (a
      single `00` byte) when there is none; `specialCharacters` is never
      consulted. */
  lemma EncodeChar(c: char, rest: string, font: FontTable)
    requires c != '{'
    ensures EncodeEntry([c] + rest, font) == Prepend(GlyphBytes(ReverseLookup(font, c)), EncodeEntry(rest, font))
    ensures (forall i :: 0 <= i < |font.kanjiOrder| ==> !MatchesAt(font.kanjiOrder, font.kanji, c, i)) ==>
              EncodeEntry([c] + rest, font) == Prepend([0], EncodeEntry(rest, font))
    ensures forall i :: 0 <= i < |font.kanjiOrder| && MatchesAt(font.kanjiOrder, font.kanji, c, i) &&
                        (forall j :: 0 <= j < i ==> !MatchesAt(font.kanjiOrder, font.kanji, c, j)) ==>
              EncodeEntry([c] + rest, font) == Prepend(GlyphBytes(font.kanjiOrder[i]), EncodeEntry(rest, font))
  {
    var s: string := [c];
    EncodeSkip(s, rest, Glyphs(font));
    EncodeFromStep(s + rest, 0, Glyphs(font));
    var order := font.kanjiOrder;
    if forall i :: 0 <= i < |order| ==> !MatchesAt(order, font.kanji, c, i) {
      FindKanjiNone(order, font.kanji, c, 0);
    }
    forall i | 0 <= i < |order| && MatchesAt(order, font.kanji, c, i) &&
               (forall j :: 0 <= j < i ==> !MatchesAt(order, font.kanji, c, j))
      ensures ReverseLookup(font, c) == order[i]
    {
      FindKanjiAt(order, font.kanji, c, 0, i);
    }
  }

  /** An escape whose code is a run of accepted hex pairs (see
      `HexPairsSpec`) writes those bytes and the scan resumes right after
      the closing brace. */
  lemma EncodeEscape(code: string, rest: string, font: FontTable)
    requires '}' !in code && HexPairs(code).1
    ensures EncodeEntry("{" + code + "}" + rest, font) == Prepend(HexPairs(code).0, EncodeEntry(rest, font))
  {
    var t := "{" + code + "}" + rest;
    EscapeStep(code, rest, Glyphs(font));
    EncodeFromStep(t, 0, Glyphs(font));
    EncodeSkip("{" + code + "}", rest, Glyphs(font));
  }

  /** The step at a '{' whose '}' closes `code`: the pairs and a jump past
      the '}' when they all parse, otherwise the pairs accepted, the glyph
      of '{' and a step of one. */
  lemma EscapeStep(code: string, rest: string, glyph: char -> seq<byte>)
    requires '}' !in code
    ensures EncodeStep("{" + code + "}" + rest, 0, glyph) ==
            if HexPairs(code).1 then Ok((HexPairs(code).0, |code| + 2))
            else Ok((HexPairs(code).0 + glyph('{'), 1))
  {
    BraceCloses(code, rest);
    BraceStep("{" + code + "}" + rest, code, |code| + 1, glyph);
  }

  /** The step at a '{' whose first '}' after it is at close. */
  lemma BraceStep(t: string, code: string, close: nat, glyph: char -> seq<byte>)
    requires 0 < close < |t| && t[0] == '{' && IndexOfFrom(t, '}', 0) == close && t[1..close] == code
    ensures EncodeStep(t, 0, glyph) ==
            if HexPairs(code).1 then Ok((HexPairs(code).0, close + 1))
            else Ok((HexPairs(code).0 + glyph('{'), 1))
  {
  }

  /** The '}' after a code without one is the first from the '{'. */
  lemma BraceCloses(code: string, rest: string)
    requires '}' !in code
    ensures var t := "{" + code + "}" + rest;
            t[0] == '{' && IndexOfFrom(t, '}', 0) == |code| + 1 && t[1..|code| + 1] == code
  {
    var t := "{" + code + "}" + rest;
    assert forall j :: 1 <= j <= |code| ==> t[j] == code[j - 1];
    assert t[|code| + 1] == '}';
    IndexOfFirst(t, '}', 0);
  }

  /** A brace-delimited run of hex pairs printed by the decoder is written
      back verbatim, byte by byte. */
  lemma EncodeToken(bs: seq<byte>, rest: string, font: FontTable)
    ensures EncodeEntry(Token(bs) + rest, font) == Prepend(bs, EncodeEntry(rest, font))
  {
    var h := HexString(bs);
    HexPairsOfHexString(bs);
    assert '}' !in h;
    EncodeEscape(h, rest, font);
  }

  /** An escape whose code does not parse (odd length, or a pair that is
      not hex) writes the pairs accepted before the failure, then the glyph
      of the '{' character itself, and resumes right after the '{', so the
      code and the closing brace are encoded as ordinary text. */
  lemma EncodeBadEscape(code: string, rest: string, font: FontTable)
    requires '}' !in code && !HexPairs(code).1
    ensures EncodeEntry("{" + code + "}" + rest, font) ==
            Prepend(HexPairs(code).0 + GlyphBytes(ReverseLookup(font, '{')), EncodeEntry(code + "}" + rest, font))
  {
    var t, tail, g := "{" + code + "}" + rest, code + "}" + rest, Glyphs(font);
    EscapeStep(code, rest, g);
    assert g('{') == GlyphBytes(ReverseLookup(font, '{'));
    EncodeFromStep(t, 0, g);
    assert t == "{" + tail;
    EncodeSkip("{", tail, g);
    assert EncodeFrom(t, 1, g) == EncodeFrom(tail, 0, g);
  }

  /** A '{' with no '}' after it makes the encoder throw. */
  lemma EncodeUnclosed(s: string, font: FontTable)
    requires '}' !in s
    ensures EncodeEntry("{" + s, font) == Err(UnclosedBrace)
  {
    var t := "{" + s;
    assert forall j :: 1 <= j < |t| ==> t[j] == s[j - 1];
    IndexOfFirst(t, '}', 0);
  }
}
