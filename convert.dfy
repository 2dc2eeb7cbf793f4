/** `ConvertToMsg` (Program.cs:628-815): splits a translated TSV into
    entries, writes a header with the entry count, reserves the table of
    8-byte records, writes every entry encoded and terminated by `00 00`,
    seeking back after each one to fill in its record, and finally writes
    the file length at offset 12 of the header. */
module Convert {
  import opened Wrappers
  import opened Seqs
  import opened Bytes
  import opened Font
  import opened Header
  import opened Encoder
  import opened Stream
  import opened Tsv

  // ---------------------------------------------------------------------
  // The file as a function of its entries

  /** The bytes written for one entry: its encoding and the terminator. */
  function EncodeBody(text: string, font: FontTable): (r: Result<seq<byte>, EncodeError>)
    ensures r.Ok? <==> EncodeEntry(text, font).Ok?
  {
    var e := EncodeEntry(text, font);
    if e.Err? then Err(e.error) else Ok(e.value + [0, 0])
  }

  /** The bodies of all entries, in order; the first entry that cannot be
      encoded stops the conversion. */
  function EncodeBodies(es: seq<string>, font: FontTable): Result<seq<seq<byte>>, EncodeError>
    decreases |es|
  {
    if es == [] then Ok([])
    else
      var b := EncodeBody(es[0], font);
      if b.Err? then Err(b.error) else Prepend([b.value], EncodeBodies(es[1..], font))
  }

  /** Where the first entry starts: after the header and one record per
      entry. */
  function TableEnd(n: nat): nat
  {
    16 + 8 * n
  }

  /** The table for bodies laid out one after another from `first`: the
      record of each body holds, as 32-bit integers, where it starts and
      where it ends. */
  function Records(first: int, bodies: seq<seq<byte>>): (r: seq<byte>)
    ensures |r| == 8 * |bodies|
  {
    if bodies == [] then []
    else
      var init := bodies[..|bodies| - 1];
      var start := first + |Flatten(init)|;
      Records(first, init) + Le32(start) + Le32(start + |bodies[|bodies| - 1]|)
  }

  /** The file written for the given bodies. */
  function AssembleMsg(bodies: seq<seq<byte>>): seq<byte>
  {
    FinalHeader(|bodies|, TableEnd(|bodies|) + |Flatten(bodies)|) + Records(TableEnd(|bodies|), bodies) + Flatten(bodies)
  }

  /** The file `ConvertToMsg` writes for the lines of a TSV file. */
  function MsgImage(lines: seq<string>, font: FontTable): Result<seq<byte>, EncodeError>
  {
    var bs := EncodeBodies(SplitEntries(lines), font);
    if bs.Err? then Err(bs.error) else Ok(AssembleMsg(bs.value))
  }

  /** The file after the first |done| of n entries are written: the
      header still without the file length, the records filled in so far,
      the records still zero, the bodies written so far. */
  function WrittenSoFar(n: nat, done: seq<seq<byte>>): (r: seq<byte>)
    requires |done| <= n
    ensures |r| == TableEnd(n) + |Flatten(done)|
  {
    InitialHeader(n) + Records(TableEnd(n), done) + Zeros(8 * (n - |done|)) + Flatten(done)
  }

  // ---------------------------------------------------------------------
  // Lemmas for the writer's seeks

  /** Writing a record over the first of k zeroed slots. */
  lemma FillSlot(s: seq<byte>, a: seq<byte>, k: nat, b: seq<byte>, pos: nat, rec: seq<byte>)
    requires k >= 1 && |rec| == 8 && s == a + Zeros(8 * k) + b && pos == |a|
    ensures Overwrite(s, pos, rec) == a + rec + Zeros(8 * (k - 1)) + b
  {
    OverwriteInside(s, |a|, rec);
    assert s[..|a|] == a;
    assert s[|a| + 8..] == Zeros(8 * (k - 1)) + b;
  }

  /** The record of one more body goes after the others: it starts where
      the bodies before it end. */
  lemma RecordsSnoc(first: int, bodies: seq<seq<byte>>, body: seq<byte>, start: int, end: int)
    requires start == first + |Flatten(bodies)| && end == start + |body|
    ensures Records(first, bodies + [body]) == Records(first, bodies) + (Le32(start) + Le32(end))
  {
    var all := bodies + [body];
    assert all[..|all| - 1] == bodies && all[|all| - 1] == body;
    assert Records(first, all) == Records(first, bodies) + Le32(start) + Le32(end);
    Assoc(Records(first, bodies), Le32(start), Le32(end));
  }

  /** The file so far and a new body, split around the zeroed records. */
  lemma BeforeRecord(n: nat, done: seq<seq<byte>>, body: seq<byte>, c: seq<byte>)
    requires |done| < n && c == WrittenSoFar(n, done)
    ensures c + body == InitialHeader(n) + Records(TableEnd(n), done) + Zeros(8 * (n - |done|)) + (Flatten(done) + body)
  {
    Assoc(InitialHeader(n) + Records(TableEnd(n), done) + Zeros(8 * (n - |done|)), Flatten(done), body);
  }

  /** The file once the new body is written and its record filled in,
      split the same way. */
  lemma AfterRecord(n: nat, done: seq<seq<byte>>, body: seq<byte>, start: int, end: int)
    requires |done| < n && start == TableEnd(n) + |Flatten(done)| && end == start + |body|
    ensures WrittenSoFar(n, done + [body]) ==
            InitialHeader(n) + Records(TableEnd(n), done) + (Le32(start) + Le32(end)) + Zeros(8 * (n - |done| - 1)) + (Flatten(done) + body)
  {
    var h, recs := InitialHeader(n), Records(TableEnd(n), done);
    var rec := Le32(start) + Le32(end);
    var z := Zeros(8 * (n - |done| - 1));
    RecordsSnoc(TableEnd(n), done, body, start, end);
    FlattenAppend(done, body);
    Assoc(h, recs, rec);
    assert |done + [body]| == |done| + 1;
    assert WrittenSoFar(n, done + [body]) == h + (recs + rec) + z + (Flatten(done) + body);
  }

  /** One more body written and its record filled in. */
  lemma RecordStep(n: nat, done: seq<seq<byte>>, body: seq<byte>, c: seq<byte>, start: nat, end: nat)
    requires |done| < n && c == WrittenSoFar(n, done)
    requires start == |c| && end == |c| + |body|
    ensures Overwrite(c + body, TableEnd(|done|), Le32(start) + Le32(end)) == WrittenSoFar(n, done + [body])
    ensures |WrittenSoFar(n, done + [body])| == end
  {
    var a := InitialHeader(n) + Records(TableEnd(n), done);
    var rec := Le32(start) + Le32(end);
    assert |a| == TableEnd(|done|) && |rec| == 8;
    BeforeRecord(n, done, body, c);
    FlattenAppend(done, body);
    FillSlot(c + body, a, n - |done|, Flatten(done) + body, TableEnd(|done|), rec);
    AfterRecord(n, done, body, start, end);
  }

  /** The file once the header and the zeroed table are written. */
  lemma NothingWritten(n: nat)
    ensures InitialHeader(n) + Zeros(8 * n) == WrittenSoFar(n, [])
  {
    assert Records(TableEnd(n), []) == [] && Flatten([]) == [];
  }

  /** The final write of the file length into the header. */
  lemma PatchLength(n: nat, x: int, rest: seq<byte>)
    ensures Overwrite(InitialHeader(n) + rest, 12, Le32(x)) == FinalHeader(n, x) + rest
  {
    var s := InitialHeader(n) + rest;
    OverwriteInside(s, 12, Le32(x));
    assert s[..12] == InitialHeader(n)[..12];
    assert s[16..] == rest;
  }

  /** Once every entry is written, the file is `AssembleMsg` but for the
      length in the header. */
  lemma AllWritten(done: seq<seq<byte>>)
    ensures var c := WrittenSoFar(|done|, done);
            Overwrite(c, 12, Le32(|c|)) == AssembleMsg(done)
  {
    var n := |done|;
    var c := WrittenSoFar(n, done);
    var rest := Records(TableEnd(n), done) + Flatten(done);
    assert Zeros(0) == [];
    assert c == InitialHeader(n) + rest;
    PatchLength(n, |c|, rest);
  }

  lemma EncodeBodiesStep(es: seq<string>, j: nat, font: FontTable)
    requires j < |es|
    ensures EncodeBody(es[j], font).Err? ==> EncodeBodies(es[j..], font) == Err(EncodeBody(es[j], font).error)
    ensures EncodeBody(es[j], font).Ok? ==>
              EncodeBodies(es[j..], font) == Prepend([EncodeBody(es[j], font).value], EncodeBodies(es[j + 1..], font))
  {
    assert es[j..][0] == es[j] && es[j..][1..] == es[j + 1..];
  }

  /** The character loop's invariant: the bytes written so far followed
      by the encoding from character i are the entry's encoding. */
  predicate EncodedUpTo(text: string, glyph: char -> seq<byte>, written: seq<byte>, i: nat)
  {
    EncodeFrom(text, 0, glyph) == Prepend(written, EncodeFrom(text, i, glyph))
  }

  /** The character loop's invariant carried over one unit, and the
      unit's bytes written right after the bytes before them. */
  lemma EncodeLoopGoesOn(text: string, i: nat, glyph: char -> seq<byte>, written: seq<byte>, step: seq<byte>, n: nat,
                         c0: seq<byte>, p0: nat)
    requires i < |text| && EncodeStep(text, i, glyph) == Ok((step, n))
    requires EncodedUpTo(text, glyph, written, i)
    ensures EncodedUpTo(text, glyph, written + step, i + n) && i < i + n <= |text|
    ensures Overwrite(Overwrite(c0, p0, written), p0 + |written|, step) == Overwrite(c0, p0, written + step)
  {
    EncodeFromStep(text, i, glyph);
    PrependPrepend(written, step, EncodeFrom(text, i + n, glyph));
    OverwriteTwice(c0, p0, written, step);
  }

  /** A unit that cannot be encoded fails the whole entry. */
  lemma EncodeLoopStops(text: string, i: nat, glyph: char -> seq<byte>, written: seq<byte>)
    requires i < |text| && EncodeStep(text, i, glyph).Err?
    requires EncodedUpTo(text, glyph, written, i)
    ensures EncodeFrom(text, 0, glyph).Err?
  {
    EncodeFromStep(text, i, glyph);
  }

  /** The character loop's invariant at the end of the text: the bytes
      written are the entry's encoding. */
  lemma EncodeLoopEnds(text: string, glyph: char -> seq<byte>, written: seq<byte>)
    requires EncodedUpTo(text, glyph, written, |text|)
    ensures EncodeFrom(text, 0, glyph) == Ok(written)
  {
    assert EncodeFrom(text, |text|, glyph) == Ok([]) && written + [] == written;
  }

  /** The pairs of an escape code from pair b on. */
  lemma PairsFrom(code: string, b: nat)
    requires b + 2 <= |code| && ParseHexPair(code[b], code[b + 1]).Some?
    ensures HexPairs(code[b..]) == ([ParseHexPair(code[b], code[b + 1]).value] + HexPairs(code[b + 2..]).0, HexPairs(code[b + 2..]).1)
  {
    HexPairsCons(code[b..]);
    assert code[b..][2..] == code[b + 2..];
  }

  /** The escape loop's invariant, carried past one more pair. */
  lemma PairsGoOn(code: string, b: nat, written: seq<byte>)
    requires b + 2 <= |code| && ParseHexPair(code[b], code[b + 1]).Some?
    requires HexPairs(code) == (written + HexPairs(code[b..]).0, HexPairs(code[b..]).1)
    ensures HexPairs(code) == (written + [ParseHexPair(code[b], code[b + 1]).value] + HexPairs(code[b + 2..]).0, HexPairs(code[b + 2..]).1)
  {
    var v := ParseHexPair(code[b], code[b + 1]).value;
    PairsFrom(code, b);
    Assoc(written, [v], HexPairs(code[b + 2..]).0);
  }

  // ---------------------------------------------------------------------
  // The writer

  /** The glyph bytes of a font index (Program.cs:763-783): big-endian,
      the high byte dropped when it is zero, otherwise bit 6 set in the
      high byte and bit 7 in the low byte. */
  method WriteGlyph(outMsgFileStream: MsgStream, fontIndex: u16)
    requires outMsgFileStream.Valid()
    modifies outMsgFileStream, outMsgFileStream.buf
    ensures outMsgFileStream.Valid() && (fresh(outMsgFileStream.buf) || outMsgFileStream.buf == old(outMsgFileStream.buf))
    ensures outMsgFileStream.Contents() ==
            Overwrite(old(outMsgFileStream.Contents()), old(outMsgFileStream.position), GlyphBytes(fontIndex))
    ensures outMsgFileStream.position == old(outMsgFileStream.position) + |GlyphBytes(fontIndex)|
  {
    var hi, lo := HighByte(fontIndex), LowByte(fontIndex);
    if hi == 0 {
      outMsgFileStream.WriteByte(lo);
    } else {
      outMsgFileStream.Write([SetBit(hi, 0x40), SetBit(lo, 0x80)]);
    }
  }

  /** The `try` block of an escape (Program.cs:730-745): the pairs of the
      code are converted and written one byte at a time until the code
      ends (true) or a pair is missing or rejected (false, with the bytes
      before it already written). */
  method WriteEscape(outMsgFileStream: MsgStream, bytecode: string) returns (ok: bool)
    requires outMsgFileStream.Valid()
    modifies outMsgFileStream, outMsgFileStream.buf
    ensures outMsgFileStream.Valid() && (fresh(outMsgFileStream.buf) || outMsgFileStream.buf == old(outMsgFileStream.buf))
    ensures ok == HexPairs(bytecode).1
    ensures outMsgFileStream.Contents() ==
            Overwrite(old(outMsgFileStream.Contents()), old(outMsgFileStream.position), HexPairs(bytecode).0)
    ensures outMsgFileStream.position == old(outMsgFileStream.position) + |HexPairs(bytecode).0|
  {
    ghost var c0 := outMsgFileStream.Contents();
    ghost var p0 := outMsgFileStream.position;
    ghost var written: seq<byte> := [];
    var b := 0;
    assert bytecode[b..] == bytecode && written + HexPairs(bytecode).0 == HexPairs(bytecode).0;
    while b < |bytecode|
      invariant b <= |bytecode| && outMsgFileStream.Valid()
      invariant fresh(outMsgFileStream.buf) || outMsgFileStream.buf == old(outMsgFileStream.buf)
      invariant HexPairs(bytecode) == (written + HexPairs(bytecode[b..]).0, HexPairs(bytecode[b..]).1)
      invariant outMsgFileStream.Contents() == Overwrite(c0, p0, written)
      invariant outMsgFileStream.position == p0 + |written|
    {
      if b + 2 > |bytecode| {
        assert written + [] == written;
        return false;
      }
      var aaa := ParseHexPair(bytecode[b], bytecode[b + 1]);
      if aaa.None? {
        assert written + [] == written;
        return false;
      }
      PairsGoOn(bytecode, b, written);
      outMsgFileStream.WriteByte(aaa.value);
      OverwriteTwice(c0, p0, written, [aaa.value]);
      written := written + [aaa.value];
      b := b + 2;
    }
    assert bytecode[b..] == [] && written + [] == written;
    return true;
  }

  /** The bytes an escape from '{' to the '}' at close writes: its pairs,
      and when the code is bad the glyph of '{' as well. */
  function BraceBytes(code: string, font: FontTable): seq<byte>
  {
    var pairs := HexPairs(code);
    if pairs.1 then pairs.0 else pairs.0 + GlyphBytes(ReverseLookup(font, '{'))
  }

  /** An escape whose '}' is at close (Program.cs:723-753): the pairs are
      written; a bad code falls back to the glyph of '{', and the loop
      then goes on with the character after it. */
  method WriteBrace(outMsgFileStream: MsgStream, roamnjiEntry: string, i: nat, close: nat, font: FontTable)
    returns (consumed: nat)
    requires outMsgFileStream.Valid() && i < close < |roamnjiEntry|
    modifies outMsgFileStream, outMsgFileStream.buf
    ensures outMsgFileStream.Valid() && (fresh(outMsgFileStream.buf) || outMsgFileStream.buf == old(outMsgFileStream.buf))
    ensures consumed == if HexPairs(roamnjiEntry[i + 1..close]).1 then close + 1 - i else 1
    ensures outMsgFileStream.Contents() ==
            Overwrite(old(outMsgFileStream.Contents()), old(outMsgFileStream.position), BraceBytes(roamnjiEntry[i + 1..close], font))
    ensures outMsgFileStream.position == old(outMsgFileStream.position) + |BraceBytes(roamnjiEntry[i + 1..close], font)|
  {
    ghost var c0 := outMsgFileStream.Contents();
    ghost var p0 := outMsgFileStream.position;
    var bytecode := roamnjiEntry[i + 1..close];
    var ok := WriteEscape(outMsgFileStream, bytecode);
    if ok {
      assert BraceBytes(bytecode, font) == HexPairs(bytecode).0;
      return close + 1 - i;
    }
    ghost var step := HexPairs(bytecode).0;
    var fontIndex := ReverseLookup(font, '{');
    WriteGlyph(outMsgFileStream, fontIndex);
    OverwriteTwice(c0, p0, step, GlyphBytes(fontIndex));
    assert BraceBytes(bytecode, font) == step + GlyphBytes(fontIndex);
    return 1;
  }

  /** One pass of the character loop (Program.cs:717-783) at position
      i, proved to write what `EncodeStep` says and to return how many
      characters it consumed. */
  method WriteUnit(outMsgFileStream: MsgStream, roamnjiEntry: string, i: nat, font: FontTable)
    returns (r: Result<nat, EncodeError>, ghost bytes: seq<byte>)
    requires outMsgFileStream.Valid() && i < |roamnjiEntry|
    modifies outMsgFileStream, outMsgFileStream.buf
    ensures outMsgFileStream.Valid() && (fresh(outMsgFileStream.buf) || outMsgFileStream.buf == old(outMsgFileStream.buf))
    ensures r.Ok? <==> EncodeStep(roamnjiEntry, i, Glyphs(font)).Ok?
    ensures r.Ok? ==>
              EncodeStep(roamnjiEntry, i, Glyphs(font)) == Ok((bytes, r.value)) &&
              outMsgFileStream.Contents() == Overwrite(old(outMsgFileStream.Contents()), old(outMsgFileStream.position), bytes) &&
              outMsgFileStream.position == old(outMsgFileStream.position) + |bytes|
  {
    var currentChar := roamnjiEntry[i];
    if currentChar == '{' {
      var close := IndexOfFrom(roamnjiEntry, '}', i);
      if close < 0 {
        return Err(UnclosedBrace), [];
      }
      IndexOfFirst(roamnjiEntry, '}', i);
      var consumed := WriteBrace(outMsgFileStream, roamnjiEntry, i, close, font);
      return Ok(consumed), BraceBytes(roamnjiEntry[i + 1..close], font);
    }
    var fontIndex := ReverseLookup(font, currentChar);
    WriteGlyph(outMsgFileStream, fontIndex);
    return Ok(1), GlyphBytes(fontIndex);
  }

  /** The character loop of one entry (Program.cs:715-784), proved to
      write `EncodeEntry`; an unclosed '{' makes `Substring` throw. */
  method WriteEntry(outMsgFileStream: MsgStream, roamnjiEntry: string, font: FontTable)
    returns (r: Result<(), EncodeError>)
    requires outMsgFileStream.Valid()
    modifies outMsgFileStream, outMsgFileStream.buf
    ensures outMsgFileStream.Valid() && (fresh(outMsgFileStream.buf) || outMsgFileStream.buf == old(outMsgFileStream.buf))
    ensures r.Ok? <==> EncodeEntry(roamnjiEntry, font).Ok?
    ensures r.Ok? ==>
              outMsgFileStream.Contents() ==
              Overwrite(old(outMsgFileStream.Contents()), old(outMsgFileStream.position), EncodeEntry(roamnjiEntry, font).value) &&
              outMsgFileStream.position == old(outMsgFileStream.position) + |EncodeEntry(roamnjiEntry, font).value|
  {
    ghost var c0 := outMsgFileStream.Contents();
    ghost var p0 := outMsgFileStream.position;
    ghost var written: seq<byte> := [];
    PrependNil(EncodeFrom(roamnjiEntry, 0, Glyphs(font)));
    var i := 0;
    while i < |roamnjiEntry|
      invariant i <= |roamnjiEntry| && outMsgFileStream.Valid()
      invariant fresh(outMsgFileStream.buf) || outMsgFileStream.buf == old(outMsgFileStream.buf)
      invariant WroteUpTo(outMsgFileStream, roamnjiEntry, font, c0, p0, written, i)
      decreases |roamnjiEntry| - i
    {
      var consumed;
      consumed, written := WriteStep(outMsgFileStream, roamnjiEntry, i, font, c0, p0, written);
      if consumed.Err? {
        return Err(consumed.error);
      }
      i := i + consumed.value;
    }
    EncodeLoopEnds(roamnjiEntry, Glyphs(font), written);
    return Ok(());
  }

  /** The character loop's invariant: the bytes written so far are the
      start of the entry's encoding, and they stand in the file from the
      entry's start. */
  ghost predicate WroteUpTo(outMsgFileStream: MsgStream, text: string, font: FontTable,
                            c0: seq<byte>, p0: nat, written: seq<byte>, i: nat)
    reads outMsgFileStream, outMsgFileStream.buf
    requires outMsgFileStream.Valid()
  {
    EncodedUpTo(text, Glyphs(font), written, i) &&
    outMsgFileStream.Contents() == Overwrite(c0, p0, written) &&
    outMsgFileStream.position == p0 + |written|
  }

  /** One pass of the character loop, with the loop's invariant carried
      over it; a unit that cannot be encoded fails the whole entry. */
  method WriteStep(outMsgFileStream: MsgStream, text: string, i: nat, font: FontTable,
                   ghost c0: seq<byte>, ghost p0: nat, ghost written: seq<byte>)
    returns (r: Result<nat, EncodeError>, ghost written': seq<byte>)
    requires outMsgFileStream.Valid() && i < |text|
    requires WroteUpTo(outMsgFileStream, text, font, c0, p0, written, i)
    modifies outMsgFileStream, outMsgFileStream.buf
    ensures outMsgFileStream.Valid() && (fresh(outMsgFileStream.buf) || outMsgFileStream.buf == old(outMsgFileStream.buf))
    ensures r.Err? ==> EncodeEntry(text, font).Err?
    ensures r.Ok? ==> i < i + r.value <= |text| && WroteUpTo(outMsgFileStream, text, font, c0, p0, written', i + r.value)
  {
    ghost var before := outMsgFileStream.Contents();
    assert before == Overwrite(c0, p0, written) && outMsgFileStream.position == p0 + |written|;
    ghost var step;
    r, step := WriteUnit(outMsgFileStream, text, i, font);
    if r.Err? {
      EncodeLoopStops(text, i, Glyphs(font), written);
      return r, written;
    }
    EncodeLoopGoesOn(text, i, Glyphs(font), written, step, r.value, c0, p0);
    written' := written + step;
    assert outMsgFileStream.Contents() == Overwrite(before, p0 + |written|, step);
  }

  /** The rest of a pass of the entry loop (Program.cs:786-807): the
      terminator, the seek back to the record, the record, the seek
      forward to the end of the entry. With the entry's bytes `enc`
      written after the |done| entries before it, the file then holds one
      more entry. */
  method FinishEntry(outMsgFileStream: MsgStream, entryStart: nat, currentDelimiterPos: nat,
                     ghost n: nat, ghost done: seq<seq<byte>>, ghost enc: seq<byte>)
    returns (nextDelimiterPos: nat)
    requires outMsgFileStream.Valid() && |done| < n
    requires entryStart == |WrittenSoFar(n, done)| && currentDelimiterPos == TableEnd(|done|)
    requires outMsgFileStream.Contents() == Overwrite(WrittenSoFar(n, done), entryStart, enc)
    requires outMsgFileStream.position == entryStart + |enc|
    modifies outMsgFileStream, outMsgFileStream.buf
    ensures outMsgFileStream.Valid() && (fresh(outMsgFileStream.buf) || outMsgFileStream.buf == old(outMsgFileStream.buf))
    ensures outMsgFileStream.Contents() == WrittenSoFar(n, done + [enc + [0, 0]])
    ensures outMsgFileStream.position == |WrittenSoFar(n, done + [enc + [0, 0]])|
    ensures nextDelimiterPos == TableEnd(|done| + 1)
  {
    ghost var c := WrittenSoFar(n, done);
    OverwriteAppend(c, enc);
    outMsgFileStream.Write([0, 0]);
    OverwriteAppend(c + enc, [0, 0]);
    Assoc(c, enc, [0, 0]);
    var entryEnd := outMsgFileStream.position;
    ghost var body := enc + [0, 0];
    assert outMsgFileStream.Contents() == c + body;
    nextDelimiterPos := WriteRecord(outMsgFileStream, currentDelimiterPos, entryStart, entryEnd);
    RecordStep(n, done, body, c, entryStart, entryEnd);
    outMsgFileStream.Seek(entryEnd);
  }

  /** The seek back to the entry's record and the record itself, its
      start and its end as little-endian 32-bit offsets
      (Program.cs:795-806): with the body written after the |done|
      entries before it, the file then holds one more entry. Returns the
      position after the record. */
  method WriteRecord(outMsgFileStream: MsgStream, currentDelimiterPos: nat, entryStart: nat, entryEnd: nat)
    returns (nextDelimiterPos: nat)
    requires outMsgFileStream.Valid()
    modifies outMsgFileStream, outMsgFileStream.buf
    ensures outMsgFileStream.Valid() && (fresh(outMsgFileStream.buf) || outMsgFileStream.buf == old(outMsgFileStream.buf))
    ensures outMsgFileStream.Contents() ==
            Overwrite(old(outMsgFileStream.Contents()), currentDelimiterPos, Le32(entryStart) + Le32(entryEnd))
    ensures nextDelimiterPos == outMsgFileStream.position == currentDelimiterPos + 8
  {
    ghost var before := outMsgFileStream.Contents();
    outMsgFileStream.Seek(currentDelimiterPos);
    outMsgFileStream.Write(Le32(entryStart));
    outMsgFileStream.Write(Le32(entryEnd));
    OverwriteTwice(before, currentDelimiterPos, Le32(entryStart), Le32(entryEnd));
    nextDelimiterPos := outMsgFileStream.position;
  }

  /** The header with the entry count and the zeroed table
      (Program.cs:667-697), written to an empty stream; returns the
      position of the first record. */
  method WriteHeader(outMsgFileStream: MsgStream, n: nat) returns (currentDelimiterPos: nat)
    requires outMsgFileStream.Valid() && outMsgFileStream.Contents() == [] && outMsgFileStream.position == 0
    modifies outMsgFileStream, outMsgFileStream.buf
    ensures outMsgFileStream.Valid() && (fresh(outMsgFileStream.buf) || outMsgFileStream.buf == old(outMsgFileStream.buf))
    ensures outMsgFileStream.Contents() == WrittenSoFar(n, [])
    ensures outMsgFileStream.position == |WrittenSoFar(n, [])|
    ensures currentDelimiterPos == TableEnd(0)
  {
    var numOfEntries := n % 0x1_0000;
    var headerByteBuffer: seq<byte> :=
      [0x00, 0x00, 0x00, 0x00, 0x54, 0x45, 0x58, 0x54, 0x02] + Le16(numOfEntries) + [0x00, 0x00, 0x00, 0x00, 0x00];
    assert headerByteBuffer == InitialHeader(n);
    outMsgFileStream.Write(headerByteBuffer);
    OverwriteAppend([], headerByteBuffer);
    assert [] + headerByteBuffer == headerByteBuffer;
    ghost var c1 := outMsgFileStream.Contents();
    assert c1 == headerByteBuffer;

    currentDelimiterPos := outMsgFileStream.position;
    var entryDelimitersBuffer := new byte[8 * n](_ => 0);
    assert entryDelimitersBuffer[..] == Zeros(8 * n);
    outMsgFileStream.Write(entryDelimitersBuffer[..]);
    OverwriteAppend(c1, Zeros(8 * n));
    NothingWritten(n);
  }

  /** One pass of the entry loop (Program.cs:712-808), with |done| of
      the n entries already written: the entry is written at the end of
      the file, then its terminator, then its record. */
  method ConvertEntry(outMsgFileStream: MsgStream, roamnjiEntry: string, font: FontTable,
                      ghost n: nat, ghost done: seq<seq<byte>>, currentDelimiterPos: nat)
    returns (r: Result<(), EncodeError>, nextDelimiterPos: nat)
    requires outMsgFileStream.Valid() && |done| < n
    requires outMsgFileStream.Contents() == WrittenSoFar(n, done)
    requires outMsgFileStream.position == |WrittenSoFar(n, done)| && currentDelimiterPos == TableEnd(|done|)
    modifies outMsgFileStream, outMsgFileStream.buf
    ensures outMsgFileStream.Valid() && (fresh(outMsgFileStream.buf) || outMsgFileStream.buf == old(outMsgFileStream.buf))
    ensures r.Ok? <==> EncodeBody(roamnjiEntry, font).Ok?
    ensures r.Ok? ==>
              var done' := done + [EncodeBody(roamnjiEntry, font).value];
              outMsgFileStream.Contents() == WrittenSoFar(n, done') &&
              outMsgFileStream.position == |WrittenSoFar(n, done')| &&
              nextDelimiterPos == TableEnd(|done'|)
  {
    ghost var c := outMsgFileStream.Contents();
    var entryStart := outMsgFileStream.position;
    var written := WriteEntry(outMsgFileStream, roamnjiEntry, font);
    if written.Err? {
      return Err(written.error), currentDelimiterPos;
    }
    ghost var enc := EncodeEntry(roamnjiEntry, font).value;
    nextDelimiterPos := FinishEntry(outMsgFileStream, entryStart, currentDelimiterPos, n, done, enc);
    assert EncodeBody(roamnjiEntry, font).value == enc + [0, 0];
    return Ok(()), nextDelimiterPos;
  }

  /** `ConvertToMsg` on the lines of the TSV file, writing to a newly
      created, empty stream: the stream ends up holding `MsgImage`, or the
      conversion stops at the first entry that cannot be encoded. */
  method ConvertToMsg(lines: seq<string>, font: FontTable, outMsgFileStream: MsgStream)
    returns (r: Result<(), EncodeError>)
    requires outMsgFileStream.Valid() && outMsgFileStream.Contents() == [] && outMsgFileStream.position == 0
    modifies outMsgFileStream, outMsgFileStream.buf
    ensures outMsgFileStream.Valid() && (fresh(outMsgFileStream.buf) || outMsgFileStream.buf == old(outMsgFileStream.buf))
    ensures r.Ok? <==> MsgImage(lines, font).Ok?
    ensures r.Ok? ==> outMsgFileStream.Contents() == MsgImage(lines, font).value
  {
    var romanjiEntries := SplitTsvEntries(lines);
    var n := |romanjiEntries|;
    var currentDelimiterPos := WriteHeader(outMsgFileStream, n);

    ghost var total := EncodeBodies(romanjiEntries, font);
    ghost var done: seq<seq<byte>> := [];
    PrependNil(total);
    var j := 0;
    while j < n
      invariant j <= n && |done| == j && outMsgFileStream.Valid()
      invariant fresh(outMsgFileStream.buf) || outMsgFileStream.buf == old(outMsgFileStream.buf)
      invariant total == Prepend(done, EncodeBodies(romanjiEntries[j..], font))
      invariant outMsgFileStream.Contents() == WrittenSoFar(n, done)
      invariant outMsgFileStream.position == |WrittenSoFar(n, done)|
      invariant currentDelimiterPos == TableEnd(j)
    {
      var roamnjiEntry := romanjiEntries[j];
      EncodeBodiesStep(romanjiEntries, j, font);
      var written;
      written, currentDelimiterPos := ConvertEntry(outMsgFileStream, roamnjiEntry, font, n, done, currentDelimiterPos);
      if written.Err? {
        return Err(written.error);
      }
      ghost var body := EncodeBody(roamnjiEntry, font).value;
      PrependPrepend(done, [body], EncodeBodies(romanjiEntries[j + 1..], font));
      done := done + [body];
      j := j + 1;
    }

    var eof := outMsgFileStream.position;
    outMsgFileStream.Seek(12);
    outMsgFileStream.Write(Le32(eof));
    assert romanjiEntries[n..] == [] && done + [] == done;
    AllWritten(done);
    return Ok(());
  }
}
