/** The layout of the files `ConvertToMsg` writes (Program.cs:667-814)
    and what `ExtractMsg` (Program.cs:355-482) reads back from them. */
module Layout {
  import opened Wrappers
  import opened Bytes
  import opened Font
  import opened Header
  import opened Decoder
  import opened Encoder
  import opened Stream
  import opened Extract
  import opened Convert
  import opened Seqs

  // ---------------------------------------------------------------------
  // Bodies one after another

  lemma {:induction false} FlattenConcat(a: seq<seq<byte>>, b: seq<seq<byte>>)
    ensures Flatten(a + b) == Flatten(a) + Flatten(b)
    decreases |b|
  {
    if b == [] {
      assert a + b == a;
    } else {
      var init := b[..|b| - 1];
      var last := b[|b| - 1];
      assert b == init + [last];
      assert a + b == (a + init) + [last];
      FlattenConcat(a, init);
      FlattenAppend(a + init, last);
      FlattenAppend(init, last);
    }
  }

  /** The bodies up to j + 1 are those up to j, then body j. */
  lemma FlattenPrefix(bs: seq<seq<byte>>, j: nat)
    requires j < |bs|
    ensures Flatten(bs[..j + 1]) == Flatten(bs[..j]) + bs[j]
  {
    assert bs[..j + 1] == bs[..j] + [bs[j]];
    FlattenAppend(bs[..j], bs[j]);
  }

  /** Body j sits between the bodies before it and those after it. */
  lemma FlattenSplit(bs: seq<seq<byte>>, j: nat)
    requires j < |bs|
    ensures Flatten(bs) == Flatten(bs[..j]) + bs[j] + Flatten(bs[j + 1..])
    ensures Flatten(bs[..j + 1]) == Flatten(bs[..j]) + bs[j]
  {
    var pre := bs[..j + 1];
    FlattenPrefix(bs, j);
    assert bs == pre + bs[j + 1..];
    FlattenConcat(pre, bs[j + 1..]);
  }

  /** Record j of a table. */
  lemma {:induction false} RecordsAt(first: int, bs: seq<seq<byte>>, j: nat, start: int, end: int)
    requires j < |bs| && start == first + |Flatten(bs[..j])| && end == start + |bs[j]|
    ensures Records(first, bs)[8 * j..8 * j + 8] == Le32(start) + Le32(end)
    decreases |bs|
  {
    var init := bs[..|bs| - 1];
    var r := Records(first, init);
    if j < |bs| - 1 {
      assert init[..j] == bs[..j] && init[j] == bs[j];
      RecordsAt(first, init, j, start, end);
      assert Records(first, bs)[8 * j..8 * j + 8] == r[8 * j..8 * j + 8];
    } else {
      assert init == bs[..j];
      assert Records(first, bs) == r + Le32(start) + Le32(end);
    }
  }

  // ---------------------------------------------------------------------
  // The layout of a written file

  /** Where body j starts in the file written for `bodies`; for
      j == |bodies| it is the end of the file. */
  function Start(bodies: seq<seq<byte>>, j: nat): nat
    requires j <= |bodies|
  {
    TableEnd(|bodies|) + |Flatten(bodies[..j])|
  }

  /** The header comes first, with the file length at offset 12; the file
      ends where the last body ends. */
  lemma AssembledHeader(bodies: seq<seq<byte>>)
    ensures var file := AssembleMsg(bodies);
            |file| == Start(bodies, |bodies|) && file[..16] == FinalHeader(|bodies|, |file|)
  {
    assert bodies[..|bodies|] == bodies;
  }

  /** The file length the header holds is the length of the file, as a
      32-bit integer. */
  lemma LengthAt12(bodies: seq<seq<byte>>)
    ensures var file := AssembleMsg(bodies);
            I32At(file, 12) == Wrap32(|file|)
  {
    var file := AssembleMsg(bodies);
    AssembledHeader(bodies);
    assert file[12..16] == Le32(|file|);
    I32AtLe32(|file|);
    assert I32At(file, 12) == I32At(Le32(|file|), 0);
  }

  /** Record j sits at 16 + 8j and holds where body j starts and ends; the
      first body starts right after the table, and each body starts where
      the one before it ends. */
  lemma AssembledRecord(bodies: seq<seq<byte>>, j: nat)
    requires j < |bodies|
    ensures var file := AssembleMsg(bodies);
            file[16 + 8 * j..24 + 8 * j] == Le32(Start(bodies, j)) + Le32(Start(bodies, j + 1))
    ensures Start(bodies, 0) == TableEnd(|bodies|)
    ensures Start(bodies, j + 1) == Start(bodies, j) + |bodies[j]|
  {
    var n := |bodies|;
    var file := AssembleMsg(bodies);
    FlattenSplit(bodies, j);
    assert bodies[..0] == [];
    assert Start(bodies, j + 1) == Start(bodies, j) + |bodies[j]|;
    RecordsAt(TableEnd(n), bodies, j, Start(bodies, j), Start(bodies, j + 1));
    RecordSlice(bodies, j);
  }

  /** The table sits right after the 16-byte header. */
  lemma RecordSlice(bodies: seq<seq<byte>>, j: nat)
    requires j < |bodies|
    ensures AssembleMsg(bodies)[16 + 8 * j..24 + 8 * j] == Records(TableEnd(|bodies|), bodies)[8 * j..8 * j + 8]
  {
    AssembleParts(bodies);
    SliceAfter16(AssembleMsg(bodies), FinalHeader(|bodies|, TableEnd(|bodies|) + |Flatten(bodies)|),
                 Records(TableEnd(|bodies|), bodies), Flatten(bodies), j);
  }

  lemma SliceAfter16(file: seq<byte>, h: seq<byte>, r: seq<byte>, f: seq<byte>, j: nat)
    requires file == h + r + f && |h| == 16 && 8 * j + 8 <= |r|
    ensures file[16 + 8 * j..24 + 8 * j] == r[8 * j..8 * j + 8]
  {
    SliceMiddle(h, r, f, 8 * j, 8 * j + 8);
  }

  /** The file written for `bodies`, in its three parts. */
  lemma AssembleParts(bodies: seq<seq<byte>>)
    ensures AssembleMsg(bodies) == FinalHeader(|bodies|, TableEnd(|bodies|) + |Flatten(bodies)|) + Records(TableEnd(|bodies|), bodies) + Flatten(bodies)
  {
  }

  /** Body j fills the file from where it starts to where the next one
      starts. */
  lemma AssembledBody(bodies: seq<seq<byte>>, j: nat)
    requires j < |bodies|
    ensures var file := AssembleMsg(bodies);
            Start(bodies, j) <= Start(bodies, j + 1) <= |file| &&
            file[Start(bodies, j)..Start(bodies, j + 1)] == bodies[j]
  {
    var n := |bodies|;
    var file := AssembleMsg(bodies);
    var head := FinalHeader(n, TableEnd(n) + |Flatten(bodies)|) + Records(TableEnd(n), bodies);
    FlattenSplit(bodies, j);
    var before := Flatten(bodies[..j]);
    assert file == (head + before) + bodies[j] + Flatten(bodies[j + 1..]);
    assert |head + before| == Start(bodies, j);
  }

  /** Every body `ConvertToMsg` writes is an encoded entry followed by the
      `00 00` terminator, one per entry, in order. */
  lemma {:induction false} BodiesOfEntries(es: seq<string>, font: FontTable)
    requires EncodeBodies(es, font).Ok?
    ensures var bodies := EncodeBodies(es, font).value;
            |bodies| == |es| &&
            forall j :: 0 <= j < |es| ==> EncodeEntry(es[j], font).Ok? && bodies[j] == EncodeEntry(es[j], font).value + [0, 0]
    decreases |es|
  {
    if es != [] {
      BodiesOfEntries(es[1..], font);
      var rest := EncodeBodies(es[1..], font).value;
      var bodies := EncodeBodies(es, font).value;
      assert bodies == [EncodeBody(es[0], font).value] + rest;
      forall j | 0 <= j < |es|
        ensures EncodeEntry(es[j], font).Ok? && bodies[j] == EncodeEntry(es[j], font).value + [0, 0]
      {
        if j > 0 {
          assert es[j] == es[1..][j - 1] && bodies[j] == rest[j - 1];
        }
      }
    }
  }

  /** The conversion fails exactly when some entry cannot be encoded. */
  lemma {:induction false} BodiesFail(es: seq<string>, font: FontTable)
    ensures EncodeBodies(es, font).Err? <==> exists j :: 0 <= j < |es| && EncodeEntry(es[j], font).Err?
    decreases |es|
  {
    if es != [] {
      BodiesFail(es[1..], font);
      if EncodeEntry(es[0], font).Ok? {
        if exists j :: 0 <= j < |es| && EncodeEntry(es[j], font).Err? {
          var j :| 0 <= j < |es| && EncodeEntry(es[j], font).Err?;
          assert es[1..][j - 1] == es[j];
        }
        if exists j :: 0 <= j < |es[1..]| && EncodeEntry(es[1..][j], font).Err? {
          var j :| 0 <= j < |es[1..]| && EncodeEntry(es[1..][j], font).Err?;
          assert es[j + 1] == es[1..][j];
        }
      }
    }
  }

  // ---------------------------------------------------------------------
  // Reading a written file back

  /** The files the read-back is proved for: at least one entry, some
      body bytes after the table, and offsets that fit a C# `int`. */
  predicate Fits(bodies: seq<seq<byte>>)
  {
    |bodies| >= 1 && |Flatten(bodies)| > 0 && |AssembleMsg(bodies)| < TWO31
  }

  /** The do-while is at record j: the record buffer holds it and the
      stream is just past it. */
  ghost predicate AtRecord(bodies: seq<seq<byte>>, j: nat, rec: seq<byte>, pos: nat)
  {
    j < |bodies| && pos == 24 + 8 * j && pos <= |AssembleMsg(bodies)| &&
    rec == AssembleMsg(bodies)[16 + 8 * j..pos]
  }
}
