/** The offset table of a `.MSG` file as `ExtractMsg` (Program.cs:394-474)
    reads it: record j is the 8 bytes after the header and j records. */
module Table {
  import opened Wrappers
  import opened Bytes
  import opened Font
  import opened Extract

  /** Record j of the table: the 8 bytes after the header and j records. */
  function RecordAt(file: seq<byte>, j: nat): (rec: seq<byte>)
    requires 24 + 8 * j <= |file|
    ensures |rec| == 8
  {
    file[16 + 8 * j..24 + 8 * j]
  }

  /** What reading the entry of each of the n records gives, in table
      order. */
  function TableEntries(file: seq<byte>, n: nat, font: FontTable, eol: bool): (rs: seq<Result<string, ExtractError>>)
    requires 16 + 8 * n <= |file|
    ensures |rs| == n
  {
    seq(n, j requires 0 <= j < n => EntryText(file, RecordAt(file, j), font, eol))
  }

  /** Result i is what reading the entry of record i gives. */
  ghost predicate EntryRead(file: seq<byte>, rs: seq<Result<string, ExtractError>>, i: int, font: FontTable, eol: bool)
  {
    0 <= i < |rs| && 24 + 8 * i <= |file| && rs[i] == EntryText(file, RecordAt(file, i), font, eol)
  }

  ghost predicate AllRead(file: seq<byte>, n: nat, rs: seq<Result<string, ExtractError>>, font: FontTable, eol: bool)
  {
    |rs| == n && forall i :: 0 <= i < n ==> EntryRead(file, rs, i, font, eol)
  }

  /** The do-while at record j: the record buffer `rec` holds it, the
      stream is at `pos` just past it, and the table ends at `first`. */
  ghost predicate AtTableRecord(file: seq<byte>, n: nat, j: nat, rec: seq<byte>, pos: nat, first: int)
  {
    j < n && 16 + 8 * n < |file| && pos == 24 + 8 * j && first == 16 + 8 * n && rec == RecordAt(file, j)
  }
}
