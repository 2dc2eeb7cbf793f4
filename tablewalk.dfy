/** What the do-while of `ExtractMsg` (Program.cs:394-474) reads from any
    file whose first record points just past a table of N records: the N
    records in table order, whoever wrote the file. */
module TableWalk {
  import opened Wrappers
  import opened Bytes
  import opened Font
  import opened Header
  import opened Extract
  import opened Stream
  import opened ReadBack
  import opened Table

  /** Reference definition of a walk over read results: the texts of
      results j.. in order, the first error stopping the walk. */
  function Collect(rs: seq<Result<string, ExtractError>>, j: nat): Result<seq<string>, ExtractError>
    requires j <= |rs|
    decreases |rs| - j
  {
    if j == |rs| then Ok([])
    else if rs[j].Err? then Err(rs[j].error)
    else Prepend([rs[j].value], Collect(rs, j + 1))
  }

  /** The walk succeeds exactly when every result from j on is a text,
      and then yields those texts in order. */
  lemma {:induction false} CollectOk(rs: seq<Result<string, ExtractError>>, j: nat)
    requires j <= |rs|
    ensures Collect(rs, j).Ok? <==> forall i :: j <= i < |rs| ==> rs[i].Ok?
    ensures Collect(rs, j).Ok? ==>
              |Collect(rs, j).value| == |rs| - j &&
              forall i :: j <= i < |rs| ==> Collect(rs, j).value[i - j] == rs[i].value
    decreases |rs| - j
  {
    if j < |rs| {
      CollectOk(rs, j + 1);
      if rs[j].Ok? && Collect(rs, j + 1).Ok? {
        var ts, rest := Collect(rs, j).value, Collect(rs, j + 1).value;
        assert ts == [rs[j].value] + rest;
        forall i | j < i < |rs|
          ensures ts[i - j] == rs[i].value
        {
          assert ts[i - j] == rest[i - (j + 1)];
        }
      }
    }
  }

  /** The do-while from record j on collects the entries of records j..
      in order. */
  lemma {:induction false} WalkFromRecord(file: seq<byte>, n: nat, j: nat, rec: seq<byte>, pos: nat, first: int,
                                          font: FontTable, eol: bool, rs: seq<Result<string, ExtractError>>)
    requires AtTableRecord(file, n, j, rec, pos, first) && AllRead(file, n, rs, font, eol)
    ensures ExtractFrom(file, rec, pos, first, font, eol) == Collect(rs, j)
    decreases n - j, 1
  {
    WalkAfterRecord(file, n, j, rec, pos, first, font, eol, rs);
    TablePass(file, n, j, rec, pos, first, font, eol, rs);
  }

  /** The walk from the record read after record j, when there is one. */
  lemma {:induction false} WalkAfterRecord(file: seq<byte>, n: nat, j: nat, rec: seq<byte>, pos: nat, first: int,
                                           font: FontTable, eol: bool, rs: seq<Result<string, ExtractError>>)
    requires AtTableRecord(file, n, j, rec, pos, first) && AllRead(file, n, rs, font, eol)
    ensures j + 1 < n ==> ExtractFrom(file, ReadAt(file, pos, 8), pos + 8, first, font, eol) == Collect(rs, j + 1)
    decreases n - j, 0
  {
    if j + 1 < n {
      NextTableRecord(file, n, j, rec, pos, first);
      WalkFromRecord(file, n, j + 1, ReadAt(file, pos, 8), pos + 8, first, font, eol, rs);
    }
  }

  /** Inside the table, the read after record j gets record j + 1. */
  lemma NextTableRecord(file: seq<byte>, n: nat, j: nat, rec: seq<byte>, pos: nat, first: int)
    requires AtTableRecord(file, n, j, rec, pos, first) && j + 1 < n
    ensures AtTableRecord(file, n, j + 1, ReadAt(file, pos, 8), pos + 8, first)
  {
    assert 16 + 8 * (j + 1) == pos && 24 + 8 * (j + 1) == pos + 8;
    ReadWhole(file, pos, 8);
  }

  /** One pass of the do-while at record j, given the walk from record
      j + 1 when there is one. */
  lemma TablePass(file: seq<byte>, n: nat, j: nat, rec: seq<byte>, pos: nat, first: int,
                  font: FontTable, eol: bool, rs: seq<Result<string, ExtractError>>)
    requires AtTableRecord(file, n, j, rec, pos, first) && AllRead(file, n, rs, font, eol)
    requires j + 1 < n ==> ExtractFrom(file, ReadAt(file, pos, 8), pos + 8, first, font, eol) == Collect(rs, j + 1)
    ensures ExtractFrom(file, rec, pos, first, font, eol) == Collect(rs, j)
  {
    assert EntryRead(file, rs, j, font, eol);
    if rs[j].Err? {
      ExtractFromStep(file, rec, pos, first, font, eol);
    } else if j + 1 < n {
      NextTableRecord(file, n, j, rec, pos, first);
      PassOn(file, rec, pos, first, rs[j].value, ReadAt(file, pos, 8), font, eol);
    } else {
      PassLast(file, rec, pos, first, rs[j].value, font, eol);
      assert [rs[j].value] + [] == [rs[j].value];
    }
  }

  /** The start read from the first record is the 32-bit integer at
      offset 16. */
  lemma FirstStart(file: seq<byte>)
    requires |file| >= 24
    ensures I32At(file[16..24], 0) == I32At(file, 16)
  {
    var rec := file[16..24];
    assert rec[0] == file[16] && rec[1] == file[17] && rec[2] == file[18] && rec[3] == file[19];
  }

  /** Right after the header, the do-while is at record 0. */
  lemma FirstTableRecord(file: seq<byte>, n: nat)
    requires n >= 1 && 16 + 8 * n < |file| && I32At(file, 16) == 16 + 8 * n
    ensures AtTableRecord(file, n, 0, file[16..24], 24, I32At(file[16..24], 0))
  {
    FirstStart(file);
    assert RecordAt(file, 0) == file[16..24];
  }

  /** `ExtractSpec` on such a file is the walk over the whole table. */
  lemma WalkWholeTable(file: seq<byte>, n: nat, font: FontTable, eol: bool, rs: seq<Result<string, ExtractError>>)
    requires n >= 1 && 16 + 8 * n < |file| && file[4..8] == Magic && I32At(file, 16) == 16 + 8 * n
    requires AllRead(file, n, rs, font, eol)
    ensures ExtractSpec(file, font, eol).Ok? <==> Collect(rs, 0).Ok?
    ensures ExtractSpec(file, font, eol).Ok? ==>
              var x := ExtractSpec(file, font, eol).value;
              x.headerOk && x.entries == Collect(rs, 0).value && x.numOfEntries == |x.entries| - 1
  {
    FirstTableRecord(file, n);
    WalkFromRecord(file, n, 0, file[16..24], 24, I32At(file[16..24], 0), font, eol, rs);
    SpecIsWalk(file, font, eol, Collect(rs, 0));
  }

  /** `ExtractSpec` on an accepted file in terms of what the walk from the
      first record gives. */
  lemma SpecIsWalk(file: seq<byte>, font: FontTable, eol: bool, w: Result<seq<string>, ExtractError>)
    requires |file| >= 24 && file[4..8] == Magic
    requires ExtractFrom(file, file[16..24], 24, I32At(file[16..24], 0), font, eol) == w
    ensures ExtractSpec(file, font, eol).Ok? <==> w.Ok?
    ensures ExtractSpec(file, font, eol).Ok? ==>
              var x := ExtractSpec(file, font, eol).value;
              x.headerOk && x.entries == w.value && x.numOfEntries == |x.entries| - 1
  {
    AcceptedFile(file, font, eol);
  }

  /** Result j of `TableEntries` is the entry of record j. */
  lemma TableEntriesRead(file: seq<byte>, n: nat, font: FontTable, eol: bool)
    requires 16 + 8 * n <= |file|
    ensures AllRead(file, n, TableEntries(file, n, font, eol), font, eol)
    ensures forall j :: 0 <= j < n ==> TableEntries(file, n, font, eol)[j] == EntryText(file, RecordAt(file, j), font, eol)
  {
  }

  /** `ExtractMsg` on any file with "TEXT" at offset 4 whose first record
      starts its entry right after a table of n >= 1 records, with some
      bytes after the table: it fails exactly when some record's entry
      cannot be read, and otherwise returns n entries, entry j being the
      text of record j, with `numOfEntries` n - 1. */
  lemma ExtractTable(file: seq<byte>, n: nat, font: FontTable, eol: bool)
    requires n >= 1 && 16 + 8 * n < |file| && file[4..8] == Magic && I32At(file, 16) == 16 + 8 * n
    ensures ExtractSpec(file, font, eol).Ok? <==>
              forall j :: 0 <= j < n ==> EntryText(file, RecordAt(file, j), font, eol).Ok?
    ensures ExtractSpec(file, font, eol).Ok? ==>
              var x := ExtractSpec(file, font, eol).value;
              x.headerOk && |x.entries| == n && x.numOfEntries == n - 1 &&
              forall j :: 0 <= j < n ==> x.entries[j] == EntryText(file, RecordAt(file, j), font, eol).value
  {
    var rs := TableEntries(file, n, font, eol);
    TableEntriesRead(file, n, font, eol);
    WalkWholeTable(file, n, font, eol, rs);
    CollectOk(rs, 0);
  }
}
