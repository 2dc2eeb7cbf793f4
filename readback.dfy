/** What `ExtractMsg` (Program.cs:355-482) reads back from a file that
    `ConvertToMsg` (Program.cs:628-815) wrote. */
module ReadBack {
  import opened Wrappers
  import opened Bytes
  import opened Font
  import opened Header
  import opened Decoder
  import opened Encoder
  import opened Stream
  import opened Tsv
  import opened Extract
  import opened Convert
  import opened Layout

  /** The bodies decoded one by one, in order; the first one that does
      not decode stops the walk. */
  function DecodeBodies(bodies: seq<seq<byte>>, font: FontTable, eol: bool): Result<seq<string>, ExtractError>
    decreases |bodies|
  {
    if bodies == [] then Ok([])
    else
      var d := DecodeEntry(bodies[0], font, eol);
      if d.Err? then Err(Undecodable(d.error)) else Prepend([d.value], DecodeBodies(bodies[1..], font, eol))
  }

  /** One decoded text per body, each the decoding of its body. */
  lemma {:induction false} DecodedBodies(bodies: seq<seq<byte>>, font: FontTable, eol: bool)
    requires DecodeBodies(bodies, font, eol).Ok?
    ensures var ts := DecodeBodies(bodies, font, eol).value;
            |ts| == |bodies| &&
            forall j :: 0 <= j < |bodies| ==> DecodeEntry(bodies[j], font, eol).Ok? && ts[j] == DecodeEntry(bodies[j], font, eol).value
    decreases |bodies|
  {
    if bodies != [] {
      DecodedBodies(bodies[1..], font, eol);
      var rest := DecodeBodies(bodies[1..], font, eol).value;
      var ts := DecodeBodies(bodies, font, eol).value;
      assert ts == [DecodeEntry(bodies[0], font, eol).value] + rest;
      forall j | 0 <= j < |bodies|
        ensures DecodeEntry(bodies[j], font, eol).Ok? && ts[j] == DecodeEntry(bodies[j], font, eol).value
      {
        if j > 0 {
          assert bodies[j] == bodies[1..][j - 1] && ts[j] == rest[j - 1];
        }
      }
    }
  }

  /** Bodies that end in `00 00` always decode. */
  lemma {:induction false} TerminatedBodiesDecode(bodies: seq<seq<byte>>, font: FontTable, eol: bool)
    requires forall j :: 0 <= j < |bodies| ==> |bodies[j]| >= 2 && bodies[j][|bodies[j]| - 2..] == [0, 0]
    ensures DecodeBodies(bodies, font, eol).Ok?
    decreases |bodies|
  {
    if bodies != [] {
      var b := bodies[0];
      assert b == b[..|b| - 2] + [0, 0];
      DecodeTerminated(b[..|b| - 2], font, eol);
      assert forall j :: 0 <= j < |bodies| - 1 ==> bodies[1..][j] == bodies[j + 1];
      TerminatedBodiesDecode(bodies[1..], font, eol);
    }
  }

  /** A record holding two non-negative 32-bit integers reads back as
      them. */
  lemma RecordFields(x: int, y: int)
    requires 0 <= x < TWO31 && 0 <= y < TWO31
    ensures I32At(Le32(x) + Le32(y), 0) == x && I32At(Le32(x) + Le32(y), 4) == y
  {
    var r := Le32(x) + Le32(y);
    I32AtLe32(x);
    I32AtLe32(y);
    assert r[..4] == Le32(x) && r[4..] == Le32(y);
    assert I32At(r, 0) == I32At(Le32(x), 0);
    assert I32At(r, 4) == I32At(Le32(y), 0);
  }

  /** The entry record j points at is body j. */
  lemma EntryAt(bodies: seq<seq<byte>>, j: nat, font: FontTable, eol: bool)
    requires Fits(bodies) && j < |bodies|
    ensures var file := AssembleMsg(bodies);
            var d := DecodeEntry(bodies[j], font, eol);
            EntryText(file, file[16 + 8 * j..24 + 8 * j], font, eol) == if d.Err? then Err(Undecodable(d.error)) else Ok(d.value)
  {
    var file := AssembleMsg(bodies);
    var rec := file[16 + 8 * j..24 + 8 * j];
    AssembledRecord(bodies, j);
    AssembledBody(bodies, j);
    var s, e := Start(bodies, j), Start(bodies, j + 1);
    RecordFields(s, e);
    var b := bodies[j];
    assert Wrap32(e - s) == |b|;
    assert ReadAt(file, s, |b|) == b;
    assert ReadFresh(file, s, |b|) == b;
  }

  lemma DecodeBodiesStep(bodies: seq<seq<byte>>, j: nat, font: FontTable, eol: bool)
    requires j < |bodies|
    ensures var d := DecodeEntry(bodies[j], font, eol);
            DecodeBodies(bodies[j..], font, eol) ==
            if d.Err? then Err(Undecodable(d.error)) else Prepend([d.value], DecodeBodies(bodies[j + 1..], font, eol))
  {
    assert bodies[j..][0] == bodies[j] && bodies[j..][1..] == bodies[j + 1..];
  }

  /** Reading the next record: inside the table it is record j + 1, at
      the end of the table it is some bytes of the first body. */
  lemma NextRecord(bodies: seq<seq<byte>>, j: nat)
    requires Fits(bodies) && j < |bodies|
    ensures var file := AssembleMsg(bodies);
            var got := ReadAt(file, 24 + 8 * j, 8);
            (j + 1 < |bodies| ==> got == file[24 + 8 * j..32 + 8 * j]) &&
            (j + 1 == |bodies| ==> |got| > 0)
  {
    var n := |bodies|;
    AssembledHeader(bodies);
    assert bodies[..n] == bodies;
  }

  /** A pass of the do-while that reads a whole record and goes on. */
  lemma PassOn(file: seq<byte>, rec: seq<byte>, pos: nat, first: int, e: string, rec2: seq<byte>, font: FontTable, eol: bool)
    requires |rec| == 8 && EntryText(file, rec, font, eol) == Ok(e)
    requires ReadAt(file, pos, 8) == rec2 && |rec2| == 8 && pos + 8 <= first
    ensures ExtractFrom(file, rec, pos, first, font, eol) == Prepend([e], ExtractFrom(file, rec2, pos + 8, first, font, eol))
  {
    ExtractFromStep(file, rec, pos, first, font, eol);
    assert ReadInto(rec, rec2) == rec2;
  }

  /** A pass of the do-while that reads past the first entry's start and
      stops. */
  lemma PassLast(file: seq<byte>, rec: seq<byte>, pos: nat, first: int, e: string, font: FontTable, eol: bool)
    requires |rec| == 8 && EntryText(file, rec, font, eol) == Ok(e)
    requires pos + |ReadAt(file, pos, 8)| > first
    ensures ExtractFrom(file, rec, pos, first, font, eol) == Ok([e])
  {
    ExtractFromStep(file, rec, pos, first, font, eol);
  }

  lemma TableInFile(bodies: seq<seq<byte>>)
    ensures TableEnd(|bodies|) <= |AssembleMsg(bodies)|
  {
  }

  /** Record j points at a body that does not decode: the walk stops. */
  lemma WalkStops(bodies: seq<seq<byte>>, j: nat, rec: seq<byte>, pos: nat, font: FontTable, eol: bool)
    requires Fits(bodies) && AtRecord(bodies, j, rec, pos) && DecodeEntry(bodies[j], font, eol).Err?
    ensures ExtractFrom(AssembleMsg(bodies), rec, pos, TableEnd(|bodies|), font, eol) == DecodeBodies(bodies[j..], font, eol)
  {
    EntryAt(bodies, j, font, eol);
    DecodeBodiesStep(bodies, j, font, eol);
    ExtractFromStep(AssembleMsg(bodies), rec, pos, TableEnd(|bodies|), font, eol);
  }

  /** Record j is not the last: its body, then the walk from record j + 1,
      which the do-while reads into the record buffer. */
  lemma WalkGoesOn(bodies: seq<seq<byte>>, j: nat, rec: seq<byte>, pos: nat, font: FontTable, eol: bool)
    requires Fits(bodies) && AtRecord(bodies, j, rec, pos) && j + 1 < |bodies| && DecodeEntry(bodies[j], font, eol).Ok?
    requires var file := AssembleMsg(bodies);
             ExtractFrom(file, ReadAt(file, pos, 8), pos + 8, TableEnd(|bodies|), font, eol) == DecodeBodies(bodies[j + 1..], font, eol)
    ensures ExtractFrom(AssembleMsg(bodies), rec, pos, TableEnd(|bodies|), font, eol) == DecodeBodies(bodies[j..], font, eol)
  {
    var file := AssembleMsg(bodies);
    var d := DecodeEntry(bodies[j], font, eol);
    EntryAt(bodies, j, font, eol);
    DecodeBodiesStep(bodies, j, font, eol);
    NextRecord(bodies, j);
    PassOn(file, rec, pos, TableEnd(|bodies|), d.value, ReadAt(file, pos, 8), font, eol);
  }

  /** Record j is the last: its body ends the walk. */
  lemma WalkEnds(bodies: seq<seq<byte>>, j: nat, rec: seq<byte>, pos: nat, font: FontTable, eol: bool)
    requires Fits(bodies) && AtRecord(bodies, j, rec, pos) && j + 1 == |bodies| && DecodeEntry(bodies[j], font, eol).Ok?
    ensures ExtractFrom(AssembleMsg(bodies), rec, pos, TableEnd(|bodies|), font, eol) == DecodeBodies(bodies[j..], font, eol)
  {
    var file := AssembleMsg(bodies);
    var d := DecodeEntry(bodies[j], font, eol);
    EntryAt(bodies, j, font, eol);
    DecodeBodiesStep(bodies, j, font, eol);
    NextRecord(bodies, j);
    PassLast(file, rec, pos, TableEnd(|bodies|), d.value, font, eol);
    assert bodies[j + 1..] == [];
    assert [d.value] + [] == [d.value];
  }

  /** The read of the next record inside the table leaves the do-while at
      record j + 1. */
  lemma NextAtRecord(bodies: seq<seq<byte>>, j: nat, rec: seq<byte>, pos: nat)
    requires Fits(bodies) && AtRecord(bodies, j, rec, pos) && j + 1 < |bodies|
    ensures AtRecord(bodies, j + 1, ReadAt(AssembleMsg(bodies), pos, 8), pos + 8)
  {
    NextRecord(bodies, j);
    TableInFile(bodies);
  }

  /** One pass of the do-while at record j, given what the walk from
      record j + 1 gives when there is one. */
  lemma WalkPassAt(bodies: seq<seq<byte>>, j: nat, rec: seq<byte>, pos: nat, font: FontTable, eol: bool)
    requires Fits(bodies) && AtRecord(bodies, j, rec, pos)
    requires var file := AssembleMsg(bodies);
             j + 1 < |bodies| ==>
               ExtractFrom(file, ReadAt(file, pos, 8), pos + 8, TableEnd(|bodies|), font, eol) == DecodeBodies(bodies[j + 1..], font, eol)
    ensures ExtractFrom(AssembleMsg(bodies), rec, pos, TableEnd(|bodies|), font, eol) == DecodeBodies(bodies[j..], font, eol)
  {
    if DecodeEntry(bodies[j], font, eol).Err? {
      WalkStops(bodies, j, rec, pos, font, eol);
    } else if j + 1 < |bodies| {
      WalkGoesOn(bodies, j, rec, pos, font, eol);
    } else {
      WalkEnds(bodies, j, rec, pos, font, eol);
    }
  }

  /** The do-while from record j on decodes the bodies from j on. */
  lemma {:induction false} Walk(bodies: seq<seq<byte>>, j: nat, rec: seq<byte>, pos: nat, font: FontTable, eol: bool)
    requires Fits(bodies) && AtRecord(bodies, j, rec, pos)
    ensures ExtractFrom(AssembleMsg(bodies), rec, pos, TableEnd(|bodies|), font, eol) == DecodeBodies(bodies[j..], font, eol)
    decreases |bodies| - j, 1
  {
    WalkRest(bodies, j, rec, pos, font, eol);
    WalkPassAt(bodies, j, rec, pos, font, eol);
  }

  /** The walk from the record after record j, when there is one. */
  lemma {:induction false} WalkRest(bodies: seq<seq<byte>>, j: nat, rec: seq<byte>, pos: nat, font: FontTable, eol: bool)
    requires Fits(bodies) && AtRecord(bodies, j, rec, pos)
    ensures var file := AssembleMsg(bodies);
            j + 1 < |bodies| ==>
              ExtractFrom(file, ReadAt(file, pos, 8), pos + 8, TableEnd(|bodies|), font, eol) == DecodeBodies(bodies[j + 1..], font, eol)
    decreases |bodies| - j, 0
  {
    if j + 1 < |bodies| {
      NextAtRecord(bodies, j, rec, pos);
      Walk(bodies, j + 1, ReadAt(AssembleMsg(bodies), pos, 8), pos + 8, font, eol);
    }
  }

  /** `ExtractSpec` on a file long enough to hold a header and a record,
      with "TEXT" in place: the walk starts at the first record. */
  lemma AcceptedFile(file: seq<byte>, font: FontTable, eol: bool)
    requires |file| >= 24 && file[4..8] == Magic
    ensures var w := ExtractFrom(file, file[16..24], 24, I32At(file[16..24], 0), font, eol);
            ExtractSpec(file, font, eol) ==
            if w.Err? then Err(w.error) else Ok(Extraction(true, w.value, |w.value| - 1, ParseHeader(file[..16]).numOfDelimiters))
  {
    ReadWhole(file, 0, 16);
    ReadWhole(file, 16, 8);
    var header := ReadFresh(file, 0, 16);
    assert header == file[..16] && header[4..8] == file[4..8];
    FirstWalkFrom(file, font, eol, file[16..24], 24);
    SpecAccepted(file, font, eol, header, FirstWalk(file, font, eol));
  }

  /** A read that the file holds in full. */
  lemma ReadWhole(file: seq<byte>, pos: nat, n: nat)
    requires pos + n <= |file|
    ensures ReadAt(file, pos, n) == file[pos..pos + n] && ReadFresh(file, pos, n) == file[pos..pos + n]
  {
    assert Zeros(n)[n..] == [];
  }

  /** The header of a written file is accepted, its count is the number of
      entries modulo 2^16 and its first record points after the table. */
  lemma AssembledStart(bodies: seq<seq<byte>>)
    requires Fits(bodies)
    ensures var file := AssembleMsg(bodies);
            |file| >= 24 && file[4..8] == Magic &&
            ParseHeader(file[..16]).numOfDelimiters == |bodies| % 0x1_0000 &&
            I32At(file[16..24], 0) == TableEnd(|bodies|)
  {
    var n := |bodies|;
    var file := AssembleMsg(bodies);
    AssembledHeader(bodies);
    ParseWrittenHeader(n, |file|);
    AssembledRecord(bodies, 0);
    AssembledBody(bodies, 0);
    RecordFields(Start(bodies, 0), Start(bodies, 1));
  }

  /** `ExtractMsg` on a written file: the header is accepted, every body
      is decoded in order, `numOfEntries` is one less than the number of
      entries and the count read from the header is that number modulo
      2^16. */
  lemma ExtractAssembled(bodies: seq<seq<byte>>, font: FontTable, eol: bool)
    requires Fits(bodies)
    ensures var d := DecodeBodies(bodies, font, eol);
            ExtractSpec(AssembleMsg(bodies), font, eol) ==
            if d.Err? then Err(d.error) else Ok(Extraction(true, d.value, |bodies| - 1, |bodies| % 0x1_0000))
  {
    var file := AssembleMsg(bodies);
    AssembledStart(bodies);
    AcceptedFile(file, font, eol);
    TableInFile(bodies);
    Walk(bodies, 0, file[16..24], 24, font, eol);
    assert bodies[0..] == bodies;
    var d := DecodeBodies(bodies, font, eol);
    if d.Ok? {
      DecodedBodies(bodies, font, eol);
    }
  }

  /** The bodies of at least one encoded entry end in `00 00` and leave
      body bytes after the table. */
  lemma EncodedBodies(es: seq<string>, font: FontTable)
    requires EncodeBodies(es, font).Ok? && |es| >= 1
    ensures var bodies := EncodeBodies(es, font).value;
            |bodies| == |es| && |Flatten(bodies)| > 0 &&
            forall j :: 0 <= j < |bodies| ==> |bodies[j]| >= 2 && bodies[j][|bodies[j]| - 2..] == [0, 0]
  {
    var bodies := EncodeBodies(es, font).value;
    BodiesOfEntries(es, font);
    FlattenSplit(bodies, 0);
    forall j | 0 <= j < |bodies|
      ensures |bodies[j]| >= 2 && bodies[j][|bodies[j]| - 2..] == [0, 0]
    {
      assert bodies[j] == EncodeEntry(es[j], font).value + [0, 0];
    }
  }

  /** Extracting the file written for encoded entries gives back, entry by
      entry, the decoding of each entry's encoding. */
  lemma EntriesRoundTrip(es: seq<string>, font: FontTable, eol: bool)
    requires EncodeBodies(es, font).Ok? && |es| >= 1 && |AssembleMsg(EncodeBodies(es, font).value)| < TWO31
    ensures var r := ExtractSpec(AssembleMsg(EncodeBodies(es, font).value), font, eol);
            r.Ok? && r.value.headerOk && |r.value.entries| == |es| && r.value.expected == |es| % 0x1_0000 &&
            forall j :: 0 <= j < |es| ==>
              EncodeEntry(es[j], font).Ok? &&
              DecodeEntry(EncodeEntry(es[j], font).value + [0, 0], font, eol) == Ok(r.value.entries[j])
  {
    var bodies := EncodeBodies(es, font).value;
    EncodedBodies(es, font);
    TerminatedBodiesDecode(bodies, font, eol);
    ExtractAssembled(bodies, font, eol);
    var ts := DecodeBodies(bodies, font, eol).value;
    DecodedBodies(bodies, font, eol);
    BodiesOfEntries(es, font);
    forall j | 0 <= j < |es|
      ensures EncodeEntry(es[j], font).Ok? && DecodeEntry(EncodeEntry(es[j], font).value + [0, 0], font, eol) == Ok(ts[j])
    {
      assert bodies[j] == EncodeEntry(es[j], font).value + [0, 0];
    }
  }

  /** Converting a TSV file and extracting the result gives one entry per
      TSV entry, in order, each the decoding of the entry's encoding; the
      closing count check holds exactly when there are fewer than 2^16
      entries. */
  lemma ConvertThenExtract(lines: seq<string>, font: FontTable, eol: bool)
    requires MsgImage(lines, font).Ok? && |SplitEntries(lines)| >= 1 && |MsgImage(lines, font).value| < TWO31
    ensures var r := ExtractSpec(MsgImage(lines, font).value, font, eol);
            r.Ok? && r.value.headerOk && |r.value.entries| == |SplitEntries(lines)|
    ensures var es := SplitEntries(lines);
            var r := ExtractSpec(MsgImage(lines, font).value, font, eol);
            forall j :: 0 <= j < |es| ==>
              EncodeEntry(es[j], font).Ok? &&
              DecodeEntry(EncodeEntry(es[j], font).value + [0, 0], font, eol) == Ok(r.value.entries[j])
    ensures var r := ExtractSpec(MsgImage(lines, font).value, font, eol);
            r.value.CountMatches() <==> |SplitEntries(lines)| < 0x1_0000
  {
    var es := SplitEntries(lines);
    var file := AssembleMsg(EncodeBodies(es, font).value);
    assert MsgImage(lines, font).value == file;
    EntriesRoundTrip(es, font, eol);
    var r := ExtractSpec(file, font, eol);
    assert r.value.numOfEntries + 1 == |es|;
    CountFits(|es|);
  }

  /** A count survives the 16-bit header field exactly when it is below
      2^16. */
  lemma CountFits(k: nat)
    ensures k % 0x1_0000 == k <==> k < 0x1_0000
  {
  }

  /** A TSV file with no entry is written as a bare header with a count of
      zero, which is read back as one empty entry: the count check fails. */
  lemma NoEntries(font: FontTable, eol: bool)
    ensures ExtractSpec(AssembleMsg([]), font, eol) == Ok(Extraction(true, [""], 0, 0))
    ensures !ExtractSpec(AssembleMsg([]), font, eol).value.CountMatches()
  {
    var file := AssembleMsg([]);
    assert file == FinalHeader(0, 16);
    ParseWrittenHeader(0, 16);
    assert ReadFresh(file, 0, 16) == file;
    var rec := ReadFresh(file, 16, 8);
    assert rec == Zeros(8);
    assert I32At(rec, 0) == 0 && I32At(rec, 4) == 0;
    assert ReadFresh(file, 0, 0) == [];
    assert DecodeEntry([], font, eol) == Ok("");
    assert EntryText(file, rec, font, eol) == Ok("");
    assert ReadAt(file, 16, 8) == [];
  }
}
