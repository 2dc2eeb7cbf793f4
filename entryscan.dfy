/** `ParseEntry` (Program.cs:519-626) as the source writes it: a loop
    over the entry's bytes with a variable advance, proved to compute the
    decoding `DecodeEntry` defines. */
module EntryScan {
  import opened Wrappers
  import opened Bytes
  import opened Font
  import opened Decoder

  /** `ParseEntry`: the scan loop of the source, proved to compute
      `DecodeEntry`. */
  method ParseEntry(stringBuffer: seq<byte>, font: FontTable, printEndOfLine: bool) returns (r: Result<string, DecodeError>)
    ensures r == DecodeEntry(stringBuffer, font, printEndOfLine)
  {
    var stringEntry := "";
    var i := 0;
    PrependNil(DecodeFrom(stringBuffer, 0, Names(font), printEndOfLine));
    while i < |stringBuffer|
      invariant 0 <= i <= |stringBuffer|
      invariant DecodedUpTo(stringBuffer, Names(font), printEndOfLine, stringEntry, i)
      decreases |stringBuffer| - i
    {
      var step := ParseUnit(stringBuffer, i, font, printEndOfLine);
      if step.Err? {
        DecodeLoopStops(stringBuffer, Names(font), printEndOfLine, stringEntry, i);
        return Err(step.error);
      }
      DecodeLoopGoesOn(stringBuffer, Names(font), printEndOfLine, stringEntry, i, step);
      stringEntry, i := stringEntry + step.value.0, i + step.value.1;
    }
    DecodeLoopEnds(stringBuffer, Names(font), printEndOfLine, stringEntry, i);
    r := Ok(stringEntry);
  }

  /** One pass of `ParseEntry`'s loop body at position i: the text it
      appends and how many bytes it consumes. */
  method ParseUnit(stringBuffer: seq<byte>, i: nat, font: FontTable, printEndOfLine: bool) returns (r: Result<(string, nat), DecodeError>)
    requires i < |stringBuffer|
    ensures r == DecodeStep(stringBuffer, i, Names(font), printEndOfLine)
    ensures r.Ok? ==> 1 <= r.value.1 && i + r.value.1 <= |stringBuffer|
  {
    var b := stringBuffer[i];
    if b == 0x00 {
      return Ok(("", 1));
    }
    if b < 0xC0 {
      var kanjiIndex := b as int as u16;
      if kanjiIndex in font.kanji {
        return Ok(([font.kanji[kanjiIndex]], 1));
      } else if kanjiIndex in font.special {
        return Ok((font.special[kanjiIndex], 1));
      }
      return Ok(("{" + Hex2(b) + "}", 1));
    }
    if b == 0xEE {
      if i + 1 >= |stringBuffer| {
        return Err(ReadPastEnd);
      }
      if stringBuffer[i + 1] == 0xA3 {
        if i + 2 >= |stringBuffer| {
          return Err(ReadPastEnd);
        }
        if stringBuffer[i + 2] == 0xBF {
          var piece := if printEndOfLine then Token(stringBuffer[i..i + 3]) else "";
          return Ok((piece + "\n", 3));
        }
        return Ok((Token(stringBuffer[i..i + 3]), 3));
      } else if stringBuffer[i + 1] == 0xA0 {
        if i + 4 > |stringBuffer| {
          return Err(ReadPastEnd);
        }
        return Ok((Token(stringBuffer[i..i + 4]), 4));
      }
      // Unknown opcode: only a debug-build assertion in the source.
      return Ok(("", 1));
    }
    if i + 1 >= |stringBuffer| {
      return Err(ReadPastEnd);
    }
    var kanjiIndex := GlyphIndex(b, stringBuffer[i + 1]);
    if kanjiIndex in font.kanji {
      return Ok(([font.kanji[kanjiIndex]], 2));
    } else if kanjiIndex in font.special {
      return Ok((font.special[kanjiIndex], 2));
    }
    return Ok(("{" + HexX2(kanjiIndex as int) + "}", 2));
  }
}
