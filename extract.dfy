/** `ExtractMsg` (Program.cs:355-482): reads the header, then walks the
    table of 8-byte `(start, end)` records that follows it, decoding the
    entry each record points at, until the stream position passes the
    start of the first entry. */
module Extract {
  import opened Wrappers
  import opened Bytes
  import opened Font
  import opened Header
  import opened Decoder
  import opened EntryScan
  import opened Stream

  /** The ways the walk stops short of a result: the C# code throws on the
      first three, and loops forever on the last. */
  datatype ExtractError =
    | NegativeOffset       // `Seek` to a negative entry start
    | NegativeSize         // `new byte[entrySize]` with end < start
    | Undecodable(e: DecodeError)
    | Diverges             // the record read hit the end of the file before the first entry

  /** `ExtractMsg`'s results: whether the header was accepted, the decoded
      entries in table order, the `numOfEntries` out-parameter and the
      entry count the header announced (`numOfDelimiters`). */
  datatype Extraction = Extraction(headerOk: bool, entries: seq<string>, numOfEntries: int, expected: int)
  {
    /** The closing `Debug.Assert`: the number of entries found is the
        header's count. It is not reached when the header is rejected. */
    predicate CountMatches()
    {
      headerOk ==> numOfEntries + 1 == expected
    }
  }

  /** The bytes `Read(buffer, 0, n)` leaves in a fresh n-byte buffer. */
  function ReadFresh(file: seq<byte>, pos: nat, n: nat): (r: seq<byte>)
    ensures |r| == n
  {
    ReadInto(Zeros(n), ReadAt(file, pos, n))
  }

  /** The text of the entry a record points at: seek to its start, read
      `end - start` bytes (computed in 32-bit arithmetic) into a fresh
      buffer, decode. */
  function EntryText(file: seq<byte>, rec: seq<byte>, font: FontTable, eol: bool): (r: Result<string, ExtractError>)
    requires |rec| == 8
    ensures I32At(rec, 0) < 0 ==> r == Err(NegativeOffset)
  {
    var start := I32At(rec, 0);
    var size := Wrap32(I32At(rec, 4) - start);
    if start < 0 then Err(NegativeOffset)
    else if size < 0 then Err(NegativeSize)
    else
      var d := DecodeEntry(ReadFresh(file, start, size), font, eol);
      if d.Err? then Err(Undecodable(d.error)) else Ok(d.value)
  }

  /** The do-while from the record held in `rec`, the position being `pos`
      (just past the last record read): one entry per pass, then the next
      record is read over the old one, and the loop goes on while the
      position is at most `first`. A read that gets nothing leaves record
      and position as they were, so when the loop would go on it would do
      so forever. */
  function ExtractFrom(file: seq<byte>, rec: seq<byte>, pos: nat, first: int, font: FontTable, eol: bool): Result<seq<string>, ExtractError>
    requires |rec| == 8
    decreases if pos <= first then first + 1 - pos else 0
  {
    var e := EntryText(file, rec, font, eol);
    if e.Err? then Err(e.error)
    else
      var got := ReadAt(file, pos, 8);
      var next := pos + |got|;
      if next > first then Ok([e.value])
      else if |got| == 0 then Err(Diverges)
      else Prepend([e.value], ExtractFrom(file, ReadInto(rec, got), next, first, font, eol))
  }

  /** The whole of `ExtractMsg` on the bytes of a file. */
  function ExtractSpec(file: seq<byte>, font: FontTable, eol: bool): (r: Result<Extraction, ExtractError>)
    ensures r.Ok? && !r.value.headerOk ==> r.value.entries == [] && r.value.numOfEntries == -1
    ensures r.Ok? && r.value.headerOk ==> r.value.numOfEntries == |r.value.entries| - 1 >= 0
  {
    var header := ReadFresh(file, 0, 16);
    var h := ParseHeader(header);
    if !h.ok then Ok(Extraction(false, [], -1, h.numOfDelimiters))
    else
      var entries := FirstWalk(file, font, eol);
      if entries.Err? then Err(entries.error)
      else Ok(Extraction(true, entries.value, |entries.value| - 1, h.numOfDelimiters))
  }

  /** The walk after an accepted header: the first record is read right
      after the header, and its start bounds the table. */
  function FirstWalk(file: seq<byte>, font: FontTable, eol: bool): Result<seq<string>, ExtractError>
  {
    var pos := |ReadAt(file, 0, 16)|;
    var rec := ReadFresh(file, pos, 8);
    ExtractFrom(file, rec, pos + |ReadAt(file, pos, 8)|, I32At(rec, 0), font, eol)
  }

  /** The header is accepted exactly when the file has "TEXT" at offset
      4; a file too short to hold it is read as zeros there. */
  lemma HeaderAccepted(file: seq<byte>, font: FontTable, eol: bool)
    requires ExtractSpec(file, font, eol).Ok?
    ensures ExtractSpec(file, font, eol).value.headerOk <==> |file| >= 8 && file[4..8] == Magic
  {
    var header := ReadFresh(file, 0, 16);
    if |file| >= 8 {
      assert header[4..8] == file[4..8];
    } else {
      assert header[7] == 0;
    }
  }

  /** One pass of the do-while, unfolded. */
  lemma ExtractFromStep(file: seq<byte>, rec: seq<byte>, pos: nat, first: int, font: FontTable, eol: bool)
    requires |rec| == 8
    ensures EntryText(file, rec, font, eol).Err? ==>
              ExtractFrom(file, rec, pos, first, font, eol) == Err(EntryText(file, rec, font, eol).error)
    ensures EntryText(file, rec, font, eol).Ok? ==>
              var e := EntryText(file, rec, font, eol).value;
              var got := ReadAt(file, pos, 8);
              ExtractFrom(file, rec, pos, first, font, eol) ==
              if pos + |got| > first then Ok([e])
              else if |got| == 0 then Err(Diverges)
              else Prepend([e], ExtractFrom(file, ReadInto(rec, got), pos + |got|, first, font, eol))
  {
  }

  /** A fresh zeroed buffer of `count` bytes filled by one read from the
      stream. */
  method ReadNew(msgFileStream: MsgStream, count: nat) returns (buffer: array<byte>)
    requires msgFileStream.Valid()
    modifies msgFileStream`position
    ensures fresh(buffer) && msgFileStream.Valid() && msgFileStream.Contents() == old(msgFileStream.Contents())
    ensures buffer[..] == ReadFresh(msgFileStream.Contents(), old(msgFileStream.position), count)
    ensures msgFileStream.position == old(msgFileStream.position) + |ReadAt(msgFileStream.Contents(), old(msgFileStream.position), count)|
  {
    buffer := new byte[count](_ => 0);
    assert buffer[..] == Zeros(count);
    var _ := msgFileStream.Read(buffer, count);
  }

  /** The body of the do-while up to the seek back: seek to the entry a
      record points at, read it into a fresh buffer and decode it. */
  method ReadEntry(msgFileStream: MsgStream, rec: seq<byte>, font: FontTable, printEndOfLine: bool)
    returns (r: Result<string, ExtractError>)
    requires msgFileStream.Valid() && |rec| == 8
    modifies msgFileStream`position
    ensures msgFileStream.Valid() && msgFileStream.Contents() == old(msgFileStream.Contents())
    ensures r == EntryText(msgFileStream.Contents(), rec, font, printEndOfLine)
  {
    var entryOffsetStart := I32At(rec, 0);
    var entryOffsetEnd := I32At(rec, 4);
    var entrySize := Wrap32(entryOffsetEnd - entryOffsetStart);
    if entryOffsetStart < 0 {
      return Err(NegativeOffset);
    }
    msgFileStream.Seek(entryOffsetStart);
    if entrySize < 0 {
      return Err(NegativeSize);
    }
    var stringBuffer := ReadNew(msgFileStream, entrySize);
    var stringEntry := ParseEntry(stringBuffer[..], font, printEndOfLine);
    if stringEntry.Err? {
      return Err(Undecodable(stringEntry.error));
    }
    return Ok(stringEntry.value);
  }

  /** The do-while of `ExtractMsg` (Program.cs:387-474), from the first
      record read into the reused 8-byte record buffer. */
  method WalkTable(msgFileStream: MsgStream, entryDelimitersBuffer: array<byte>, firstEntryStart: int,
                   font: FontTable, printEndOfLine: bool)
    returns (r: Result<seq<string>, ExtractError>, numOfEntries: int)
    requires msgFileStream.Valid() && entryDelimitersBuffer.Length == 8 && entryDelimitersBuffer != msgFileStream.buf
    modifies msgFileStream`position, entryDelimitersBuffer
    ensures r == ExtractFrom(msgFileStream.Contents(), old(entryDelimitersBuffer[..]), old(msgFileStream.position),
                             firstEntryStart, font, printEndOfLine)
    ensures r.Ok? ==> numOfEntries == |r.value| - 1
  {
    ghost var file := msgFileStream.Contents();
    ghost var total := ExtractFrom(file, entryDelimitersBuffer[..], msgFileStream.position, firstEntryStart, font, printEndOfLine);
    numOfEntries := -1;
    var entries: seq<string> := [];
    PrependNil(total);

    while true
      invariant msgFileStream.Valid() && msgFileStream.Contents() == file
      invariant numOfEntries == |entries| - 1
      invariant Prepend(entries, ExtractFrom(file, entryDelimitersBuffer[..], msgFileStream.position, firstEntryStart, font, printEndOfLine)) == total
      decreases if msgFileStream.position <= firstEntryStart then firstEntryStart + 1 - msgFileStream.position else 0
    {
      ghost var rec := entryDelimitersBuffer[..];
      numOfEntries := numOfEntries + 1;
      var prevPos := msgFileStream.position;
      var stringEntry := ReadEntry(msgFileStream, entryDelimitersBuffer[..], font, printEndOfLine);
      ExtractFromStep(file, rec, prevPos, firstEntryStart, font, printEndOfLine);
      if stringEntry.Err? {
        return Err(stringEntry.error), numOfEntries;
      }
      ghost var before := entries;
      entries := entries + [stringEntry.value];

      msgFileStream.Seek(prevPos);
      var got := msgFileStream.Read(entryDelimitersBuffer, 8);
      WalkPass(file, rec, prevPos, firstEntryStart, font, printEndOfLine, before, stringEntry.value, total);
      if msgFileStream.position > firstEntryStart {
        break;
      }
      if got == 0 {
        return Err(Diverges), numOfEntries;
      }
    }
    return Ok(entries), numOfEntries;
  }

  /** A pass of the do-while that decoded entry e, in the terms of the
      loop's invariant: it ends the walk, stops it on a short read, or
      leaves the rest to the next record. */
  lemma WalkPass(file: seq<byte>, rec: seq<byte>, pos: nat, first: int, font: FontTable, eol: bool,
                 before: seq<string>, e: string, total: Result<seq<string>, ExtractError>)
    requires |rec| == 8 && EntryText(file, rec, font, eol) == Ok(e)
    requires Prepend(before, ExtractFrom(file, rec, pos, first, font, eol)) == total
    ensures var got := ReadAt(file, pos, 8);
            var next := pos + |got|;
            (next > first ==> total == Ok(before + [e])) &&
            (next <= first && |got| == 0 ==> total == Err(Diverges)) &&
            (next <= first && |got| > 0 ==>
               Prepend(before + [e], ExtractFrom(file, ReadInto(rec, got), next, first, font, eol)) == total)
  {
    var got := ReadAt(file, pos, 8);
    ExtractFromStep(file, rec, pos, first, font, eol);
    PrependPrepend(before, [e], ExtractFrom(file, ReadInto(rec, got), pos + |got|, first, font, eol));
  }

  /** `ExtractSpec` of a file whose header is rejected. */
  lemma SpecRejected(file: seq<byte>, font: FontTable, eol: bool, header: seq<byte>)
    requires header == ReadFresh(file, 0, 16) && !ParseHeader(header).ok
    ensures ExtractSpec(file, font, eol) == Ok(Extraction(false, [], -1, ParseHeader(header).numOfDelimiters))
  {
  }

  /** `ExtractSpec` of a file whose header is accepted, from the reads the
      method makes. */
  lemma SpecAccepted(file: seq<byte>, font: FontTable, eol: bool, header: seq<byte>, w: Result<seq<string>, ExtractError>)
    requires header == ReadFresh(file, 0, 16) && ParseHeader(header).ok
    requires w == FirstWalk(file, font, eol)
    ensures ExtractSpec(file, font, eol) ==
            if w.Err? then Err(w.error) else Ok(Extraction(true, w.value, |w.value| - 1, ParseHeader(header).numOfDelimiters))
  {
  }

  /** `FirstWalk` from the record and position the method has read. */
  lemma FirstWalkFrom(file: seq<byte>, font: FontTable, eol: bool, rec: seq<byte>, next: nat)
    requires rec == ReadFresh(file, |ReadAt(file, 0, 16)|, 8)
    requires next == |ReadAt(file, 0, 16)| + |ReadAt(file, |ReadAt(file, 0, 16)|, 8)|
    ensures FirstWalk(file, font, eol) == ExtractFrom(file, rec, next, I32At(rec, 0), font, eol)
  {
  }

  /** `ExtractMsg` over an in-memory stream holding the file; the file
      name line and the debug text it adds to its output are left out. */
  method ExtractMsg(file: seq<byte>, font: FontTable, printEndOfLine: bool) returns (r: Result<Extraction, ExtractError>)
    ensures r == ExtractSpec(file, font, printEndOfLine)
  {
    var msgFileStream := new MsgStream.Open(file);

    var headerByteBuffer := ReadNew(msgFileStream, 16);
    var h := ParseHeader(headerByteBuffer[..]);
    if !h.ok {
      SpecRejected(file, font, printEndOfLine, headerByteBuffer[..]);
      return Ok(Extraction(false, [], -1, h.numOfDelimiters));
    }

    var entryDelimitersBuffer := ReadNew(msgFileStream, 8);
    var firstEntryStart := I32At(entryDelimitersBuffer[..], 0);
    ghost var header, rec, next := headerByteBuffer[..], entryDelimitersBuffer[..], msgFileStream.position;

    var entries, numOfEntries := WalkTable(msgFileStream, entryDelimitersBuffer, firstEntryStart, font, printEndOfLine);
    FirstWalkFrom(file, font, printEndOfLine, rec, next);
    SpecAccepted(file, font, printEndOfLine, header, entries);
    if entries.Err? {
      return Err(entries.error);
    }
    r := Ok(Extraction(true, entries.value, numOfEntries, h.numOfDelimiters));
  }
}
