# MSGExporter `.MSG` codec in Dafny

This project models the text-resource codec of MSGExporter, a tool that
converts a game's `.MSG` files to editable text and back. All of the
modelled code is in `Program.cs`:

- **Header** (`ParseHeader`): the 16-byte header. It holds the magic `TEXT`
  at offset 4 and three little-endian 16-bit fields read at offsets 8, 9
  and 12. The first two overlap by one byte.
- **Entry decoder** (`ParseEntry`): a left-to-right byte scan with a
  variable advance. `00` is padding. A byte below `C0` is a one-byte glyph.
  `EE A3 xx` and `EE A0 xx yy` are opcodes printed as `{…}` escape tokens,
  and `EE A3 BF` is the line break. Any other lead byte from `C0` up starts
  a two-byte glyph. Glyphs are looked up in `kanji`, then in
  `specialCharacters`, and otherwise printed as a hex placeholder.
- **Offset-table walk** (`ExtractMsg`): a do-while over the 8-byte
  `(start, end)` records after the header. It seeks to each entry, reads
  and decodes it, and seeks back. It stops once the stream position passes
  the first entry's start.
- **TSV splitter** (start of `ConvertToMsg`): gathers translated lines into
  entries. Each kept line gets the line-break token `{EEA3BF}` appended. An
  entry closes on a line ending in `"`, and all quotes are then removed.
- **Entry encoder and file writer** (`ConvertToMsg`): `{HH…}` escapes are
  written verbatim. Every other character is reverse-looked-up in `kanji`.
  Each entry ends with `00 00`. The writer reserves the record table, writes
  each entry, seeks back to fill in that entry's record, and finally
  patches the file length in at offset 12.
- **Font table** (`CreateFontFromFile`): builds `kanji` and
  `specialCharacters` from tab-separated lines and reports duplicate keys.

Modules: `Bytes` holds the byte, `BitConverter` and hex helpers. Then
`Header`, `Font`, `Decoder`, `EntryScan`, `Encoder`, `Tsv`, and `Stream` (the seekable
`FileStream` as a class over a byte array with a position). `Extract`
models `ExtractMsg` and `Convert` models `ConvertToMsg`. `Table` and
`TableWalk` state the walk over any offset table. `Layout`, `ReadBack` and
`Units` relate the two directions.

The decoder, the walk, the writer, the splitter and the font loader are
imperative methods. Each is proved equal to a specification function
(`DecodeEntry`, `ExtractSpec`, `MsgImage`, `SplitEntries`, `BuildFont`).
The lemmas then state what the source promises about those functions.
The encoder's scan (`EncodeStep`, `EncodeFrom`) takes the font as a
function from a character to its glyph bytes, and the decoder's scan takes
it as a function from an index to its text. `EncodeEntry` and
`DecodeEntry` pass `Glyphs(font)` and `Names(font)`, so the lemmas about
the scans hold for every font at once.

Where the code behaves in ways a reader of the format might not expect,
the model follows the code:
- An unmapped character encodes as index 0, a single `00` byte. It is not
  an error.
- The reverse lookup reads only `kanji`, never `specialCharacters`. Ties go
  to the first key in insertion order.
- `EE` followed by a byte other than `A3`/`A0` hits only a `Debug.Assert`.
  In a release build it prints nothing and advances one byte.
- A bad escape code falls back to the glyph of `{` itself. The bytes of
  pairs parsed before the failure stay written, and the scan resumes right
  after the `{`.
- The entry-count check is an assertion on the result
  (`Extraction.CountMatches`), not an error value.
- Reads past the end of an entry, an unclosed `{`, negative offsets and a
  record read that reaches the end of the file inside the table become
  error results. The code would throw or loop forever there.

## Model

| member | source | states |
|---|---|---|
| Header.ParseHeader | Program.cs:484-517 | accepted iff bytes 4..7 are `54 45 58 54`; rejected sets all three outputs to -1; accepted yields `h[8] + 256·h[9]`, `h[9] + 256·h[10]` and `h[12] + 256·h[13]` |
| Header.HeaderFieldsOverlap | Program.cs:507-509 | the high byte of the bottom-screen field is the low byte of the count (both read byte 9) |
| Header.ParseWrittenHeader | Program.cs:669-681 | the header the writer produces reads back as accepted, bottom-screen `2 + 256·(N mod 256)`, count `N mod 2^16`, size = file length mod 2^16 |
| Header.U16AtLe32 | Program.cs:810-814 | a 16-bit read of a 32-bit LE write keeps the value modulo 2^16 |
| Header.SampleHeader | Program.cs:487-494 | the sample header in the source's comment parses to count 0x1F, size 0x072A |
| Bytes.Wrap32 | Program.cs:798-802 | the `(int)` cast lands in [-2^31, 2^31), is congruent to its input and is the identity in range |
| Bytes.I32AtLe32 | Program.cs:798-803 | reading back a 32-bit LE write gives the wrapped `int` the writer held |
| Bytes.U16AtLe16 | Program.cs:669-670 | reading back a 16-bit LE write gives the same value |
| Bytes.ClearBit | Program.cs:596-597 | clearing a mask bit clears it and keeps the other mask bit |
| Bytes.SetBit | Program.cs:777-778 | setting a mask bit sets it, keeps the other mask bit and keeps every bit below it |
| Bytes.ParseHexPair | Program.cs:735-738 | a two-char pair parses iff the second is a hex digit and the first is a hex digit or `+` |
| Bytes.Hex2 | Program.cs:548 | `X2` of a byte is two upper-case hex digits, none of them a brace, quote or newline |
| Bytes.Hex2Parses | Program.cs:548 | the two digits of `X2` parse back, as an escape pair, to that byte |
| Bytes.ParseHexU16 | Program.cs:300 | a font index parses iff it is a non-empty run of hex digits worth at most 0xFFFF, and then has that value |
| Bytes.ParseHexX2 | Program.cs:616 | an index printed as the decoder's `{index}` placeholder parses back as a font-file index to the same value |
| Bytes.HexNumberOfDigits | Program.cs:616 | the hex spelling of a number denotes that number |
| Font.TabIndex | Program.cs:298 | the split position is the first tab, or the end of the line |
| Font.FontLineRoundTrip | Program.cs:298-302 | a line `hex<TAB>value` parses to that index and value |
| Font.BuildFontCorrect | Program.cs:288-321 | loading succeeds iff every line parses; then the table is valid, its keys are exactly those of the lines, in both `kanji` and `specialCharacters` the value of a key is the one from the first line claiming it, `kanji`'s insertion order is `KanjiFirstOrder` (each key where it first appears), and the duplicate list is the reference one |
| Font.NoDuplicatesIff | Program.cs:320-321 | the duplicate list is empty iff no two lines claim the same key of the same map |
| Font.FailureStops | Program.cs:296-300 | a line that fails to parse fails the whole load with the same error |
| Font.StepFirst | Program.cs:303-316 | `TryAdd` keeps the first line's value: after one more line, every key's value still comes from the first line claiming it |
| Font.StepOrder | Program.cs:303-308 | one more line appends its `kanji` key to the insertion order iff no earlier line claimed it |
| Font.FontLoader.constructor | Program.cs:290-291 | the dictionaries and the duplicate list start empty |
| Font.FontLoader.AddFontLine | Program.cs:298-317 | one line updates the dictionaries as `AddLine` says, or fails leaving them unchanged |
| Font.FontLoader.CreateFontFromLines | Program.cs:288-321 | the loop builds `BuildFont(lines)` and returns true iff there are no duplicates |
| Font.ReverseLookupSound | Program.cs:751-760 | a character with a `kanji` entry resolves to a key holding it; one without resolves to 0 |
| Font.FindKanjiAt | Program.cs:758 | the lookup returns the first key in list order whose value is the character |
| Font.FindKanjiNone | Program.cs:758-760 | with no match the lookup returns the default key 0 |
| Decoder.HexString | Program.cs:565 | `BitConverter.ToString(...).Replace("-", "")` has two hex digits per byte and no brace, quote or newline |
| Decoder.GlyphIndex | Program.cs:589-600 | a masked lead byte of at least 0xC0 gives an index of at least 0x8000 |
| Decoder.DecodeStep | Program.cs:527-622 | one scan step advances at least one byte and never past the end |
| EntryScan.ParseUnit | Program.cs:527-622 | one loop pass appends and advances exactly what `DecodeStep` says |
| EntryScan.ParseEntry | Program.cs:519-626 | the scan loop computes `DecodeEntry` |
| Decoder.DecodeSingleByte | Program.cs:527-549 | `00` emits nothing; a nonzero byte below C0 emits the `kanji` char, else the `specialCharacters` string, else `{XX}`, and advances 1 |
| Decoder.DecodeOpcode3 | Program.cs:555-575 | `EE A3 BF` emits a newline, preceded by `{EEA3BF}` iff `printEndOfLine`; `EE A3 xx` otherwise emits `{EEA3xx}`; both advance 3 |
| Decoder.DecodeOpcode4 | Program.cs:576-581 | `EE A0 x y` emits `{EEA0xy}` and advances 4 |
| Decoder.DecodeUnknownOpcode | Program.cs:582-585 | any other byte after `EE` emits nothing and the scan resumes at that byte |
| Decoder.DecodeTwoByte | Program.cs:587-622 | a lead byte from C0 up other than EE emits the lookup of the masked index, or a four-digit `{index}`, and advances 2 |
| Decoder.DecodeTruncated | Program.cs:555-593 | an entry cut off inside a glyph or opcode is an error: a lone lead byte from C0 up, `EE A3`, `EE A0` and `EE A0 x` |
| Decoder.DecodeAppend | Program.cs:525-623 | an entry that decodes, followed by more bytes, decodes to its text followed by theirs |
| Decoder.DecodeShift | Program.cs:525-623 | the text from a position does not depend on the bytes before it |
| Decoder.DecodeZeros | Program.cs:527-528 | zero bytes decode to nothing |
| Decoder.DecodeTerminated | Program.cs:789-790 | an entry ending in `00 00` always decodes, and the terminator adds no text |
| Encoder.GlyphBytes | Program.cs:763-783 | an index is one byte iff its high byte is 0 (that byte is the index); otherwise two bytes: the first keeps bits 0-5 and bit 7 of the high byte and has bit 6 set, the second keeps bits 0-6 of the low byte and has bit 7 set |
| Encoder.GlyphIndexInverts | Program.cs:589-600 | the decoder's mask recovers an encoded two-byte index iff the high byte has bit 7 set and bit 6 clear, the low byte has bit 7 clear, and the lead byte is not EE |
| Encoder.DecodeGlyphBytes | Program.cs:764-783 | the bytes written for such an index, or for a one-byte index below C0, decode as that index |
| Encoder.IndexOfFirst | Program.cs:726 | `IndexOf('}', i)` is -1 iff there is no `}` from i on, and is otherwise the first one |
| Encoder.HexPairs | Program.cs:732-741 | the escape loop writes at most one byte per two characters |
| Encoder.HexPairsSpec | Program.cs:729-747 | the escape loop writes the leading accepted pairs in order; it finishes iff the code has even length and every pair parses |
| Encoder.HexPairsOfHexString | Program.cs:732-741 | the pairs of a hex-printed byte string parse back to those bytes |
| Encoder.EncodeStep | Program.cs:719-783 | one pass of the character loop consumes at least one character and stays in bounds |
| Encoder.EncodeChar | Program.cs:755-761 | a character other than `{` writes the glyph bytes of the first `kanji` key holding it, or a single `00` when there is none |
| Encoder.EncodeEscape | Program.cs:723-746 | a `{code}` whose pairs all parse writes those bytes and resumes after the `}` |
| Encoder.EncodeToken | Program.cs:723-746 | a token the decoder printed is written back as its bytes |
| Encoder.EscapeStep | Program.cs:723-753 | at a `{` whose `}` closes a code, the step writes the code's pairs and jumps past the `}` iff they all parse, else writes them and the glyph of `{` and moves one character |
| Encoder.EncodeBadEscape | Program.cs:748-753 | a bad code writes its parsed leading pairs, then the glyph of `{`, and resumes right after the `{` |
| Encoder.EncodeUnclosed | Program.cs:726-727 | a `{` with no later `}` is an error |
| Encoder.EncodeAppend | Program.cs:717-784 | text that encodes, followed by more text, encodes to its bytes followed by theirs |
| Units.DecodeUnits | Program.cs:525-623 | the bytes of encodable units decode to their text |
| Units.EncodeUnits | Program.cs:717-784 | the source text of encodable units encodes to their bytes |
| Units.BytesRoundTrip | Program.cs:717-784 | decoding, writing newlines as `{EEA3BF}` and re-encoding gives back the original bytes of an entry of encodable units |
| Units.UnknownTwoByteChanges | Program.cs:614-617 | an unknown two-byte glyph does not survive a round trip: it comes back masked, with bit 6 of the lead byte lost |
| Units.PlaceholderEncodes | Program.cs:732-741 | the `{index}` placeholder re-encodes as the index's high and low bytes |
| Units.SampleEncoding | Program.cs:717-790 | `A{EEA3BF}B` with A=0x41 and B=0x10 is written as `41 EE A3 BF 10 00 00` |
| Units.SampleNameCode | Program.cs:576-581 | `EE A0 81 00` decodes to `{EEA08100}` |
| Tsv.SplitTsvEntries | Program.cs:638-663 | the reading loop computes `SplitEntries` |
| Tsv.RemoveQuotesSpec | Program.cs:659 | the result holds no `"`, and text without quotes is unchanged |
| Tsv.ReplaceNewlinesId | Program.cs:654-655 | text without newlines is unchanged by the line-break rewriting |
| Tsv.FeedAllKeeps | Program.cs:656-661 | closed entries stay first, in order, whatever lines follow |
| Tsv.EmptyLinesSkipped | Program.cs:651-652 | an empty line changes nothing |
| Tsv.UnterminatedTailDropped | Program.cs:647-662 | lines after the last closing line add no entry |
| Tsv.JoinOfLines | Program.cs:153 | cutting a text into lines and joining them with newlines gives it back |
| Tsv.TsvRoundTrip | Program.cs:432-435 | reading back a `-tsv` export gives one entry per exported entry, in order, with newlines as `{EEA3BF}` and one more token at the end |
| Stream.Overwrite | Program.cs:682 | a write keeps the length when empty, else extends it to the written end |
| Stream.ReadAt | Program.cs:424 | a read returns up to count bytes, fewer at the end, none past it |
| Stream.OverwriteAt | Program.cs:682 | each byte after a write comes from the data, the old file, or the zero gap |
| Stream.OverwriteTwice | Program.cs:798-803 | two consecutive writes are one write of both |
| Stream.OverwriteAppend | Program.cs:682 | writing at the end appends |
| Stream.OverwritePastEnd | Program.cs:807 | writing past the end fills the gap with zeros |
| Stream.OverwriteInside | Program.cs:795-799 | writing inside the file replaces those bytes and keeps the length |
| Stream.ReadBack | Program.cs:424 | what was written is read back, and nothing else changes |
| Stream.MsgStream.constructor | Program.cs:124 | a created stream is empty at position 0 |
| Stream.MsgStream.Open | Program.cs:357 | an opened stream holds the file at position 0 |
| Stream.MsgStream.Seek | Program.cs:419 | seek changes only the position |
| Stream.MsgStream.Read | Program.cs:424 | read copies `ReadAt` into the buffer start, keeps the rest, and advances by the count read |
| Stream.MsgStream.Write | Program.cs:682 | write overwrites or extends the file from the position and advances past the data |
| Stream.MsgStream.WriteByte | Program.cs:740 | write of one byte |
| Convert.EncodeBody | Program.cs:789-790 | an entry body exists iff its text encodes |
| Convert.Records | Program.cs:794-806 | the table has 8 bytes per entry |
| Convert.WrittenSoFar | Program.cs:703-808 | the partial file has length `16 + 8N` plus the bodies written |
| Convert.RecordStep | Program.cs:794-806 | filling the next record after a body turns the partial file for j entries into the one for j+1 |
| Convert.AllWritten | Program.cs:810-814 | patching the length at offset 12 turns the finished partial file into `AssembleMsg` |
| Convert.WriteGlyph | Program.cs:763-783 | writes `GlyphBytes` of the index at the position |
| Convert.WriteEscape | Program.cs:729-746 | writes the parsed pairs and returns whether the whole code parsed |
| Convert.WriteBrace | Program.cs:723-753 | writes the pairs, plus the glyph of `{` on a bad code, and returns the characters consumed |
| Convert.WriteUnit | Program.cs:717-783 | one loop pass succeeds iff `EncodeStep` does, and then writes exactly the step's bytes at the position and returns its advance |
| Convert.WriteStep | Program.cs:717-784 | one loop pass keeps the loop invariant (the bytes written so far, then the encoding of the rest, are the entry's encoding) and fails only when the entry cannot be encoded |
| Convert.WriteEntry | Program.cs:715-784 | the character loop writes `EncodeEntry` or fails exactly when it does |
| Convert.FinishEntry | Program.cs:786-807 | with the entry's bytes written after j entries, writing `00 00` and filling record j leaves the partial file for j+1 entries, positioned at its end, with the record cursor on record j+1 |
| Convert.WriteRecord | Program.cs:795-806 | seeking to the record cursor and writing the start and then the end as LE int32 overwrites those 8 bytes and returns the cursor moved by 8 |
| Convert.WriteHeader | Program.cs:667-697 | writes the initial header and `8N` zero bytes |
| Convert.ConvertEntry | Program.cs:710-808 | one pass of the entry loop extends the partial file by that entry |
| Convert.ConvertToMsg | Program.cs:628-815 | the stream ends up holding `MsgImage(lines)`, or the call fails iff some entry cannot be encoded |
| Layout.AssembledHeader | Program.cs:667-681 | a written file is as long as its header, table and bodies, and its header is the final header with its own length |
| Layout.LengthAt12 | Program.cs:810-814 | the int32 at offset 12 is the file length |
| Layout.AssembledRecord | Program.cs:794-806 | record j at `16+8j` holds LE int32 `(start_j, end_j)`; `start_0 = 16+8N` and `start_{j+1} = end_j` |
| Layout.AssembledBody | Program.cs:710-808 | body j fills the file from `start_j` to `end_j` |
| Layout.BodiesOfEntries | Program.cs:710-790 | body j is entry j's encoding followed by `00 00` |
| Layout.BodiesFail | Program.cs:717-784 | writing fails iff some entry cannot be encoded |
| Extract.ReadFresh | Program.cs:423-424 | reading into a fresh buffer yields exactly the requested number of bytes |
| Extract.EntryText | Program.cs:400-429 | a record with a negative start is an error |
| Extract.ExtractSpec | Program.cs:355-482 | a rejected header gives no entries and `numOfEntries` -1; an accepted one gives `numOfEntries = entries - 1` |
| Extract.HeaderAccepted | Program.cs:498 | the header is accepted iff the file has `TEXT` at offset 4 |
| Extract.ReadNew | Program.cs:388-389 | a fresh buffer filled by one read, with the position advanced |
| Extract.ReadEntry | Program.cs:417-429 | seek, read and decode compute `EntryText` |
| Extract.WalkTable | Program.cs:394-474 | the do-while computes `ExtractFrom`, with `numOfEntries` one less than the entries found |
| Extract.ExtractMsg | Program.cs:355-482 | the method computes `ExtractSpec` |
| TableWalk.CollectOk | Program.cs:394-474 | the reference walk over read results succeeds iff every result is a text, and then yields those texts in order |
| TableWalk.WalkFromRecord | Program.cs:394-474 | from record j of any table the do-while computes the reference walk over the entries of records j.. |
| TableWalk.ExtractTable | Program.cs:387-477 | on any file with `TEXT` at offset 4 whose first record starts right after a table of n records: extraction succeeds iff every record's entry reads, and then gives n entries, entry j being record j's text, with `numOfEntries` n - 1 |
| ReadBack.DecodedBodies | Program.cs:394-474 | one decoded text per body, each its decoding |
| ReadBack.TerminatedBodiesDecode | Program.cs:789-790 | bodies ending in `00 00` always decode |
| ReadBack.RecordFields | Program.cs:798-803 | a record of two non-negative ints reads back as them |
| ReadBack.EntryAt | Program.cs:400-429 | the entry record j points at is body j |
| ReadBack.Walk | Program.cs:394-474 | from record j on, the do-while decodes bodies j.. in order |
| ReadBack.ExtractAssembled | Program.cs:387-477 | on a written file the header is accepted, exactly N records are decoded in table order, `numOfEntries + 1 = N`, and the header count is N mod 2^16 |
| ReadBack.EntriesRoundTrip | Program.cs:387-477 | extracting the file written for entries gives, entry by entry, the decoding of each entry's encoding |
| ReadBack.ConvertThenExtract | Program.cs:476-477 | after converting a TSV and extracting, the count check holds iff there are fewer than 2^16 entries |
| ReadBack.NoEntries | Program.cs:474-477 | a file with no entries is read back as one empty entry and fails the count check |

## Left out

- Argument parsing, directory traversal, console output and waiting for
  input (`Main`, `ProcessArguments`, `FindFiles`, `WaitForUserInput`) are
  not part of this model.
- Opening and reading real files: the TSV and font files are given as
  sequences of lines, and the `.MSG` file as a byte sequence in an
  in-memory stream. `ReadLine`'s splitting is modelled only at `\n`.
- The debug and presentation text of `ExtractMsg` is not modelled: the
  file-name line, `ENTRY`/`HEADER`/`START` lines, the hex dumps and the
  `Replace` annotations. The same goes for `convertedIndices`,
  `debugCharPerLineCount`, `debugStr` and the unused constants.
- The magic is compared as raw bytes rather than by UTF-8 decoding, which
  can differ only for buffers that are not `TEXT`.
- Characters are Dafny `char`s. UTF-16 surrogate pairs in the font file's
  `split[1].Length == 1` test are not modelled.
- `FileStream` errors other than a negative seek are not modelled (I/O
  failures, disk full).
- `Debug.Assert` is not a process abort: the entry-count check is a
  predicate on the result, and the unknown-opcode assertion is skipped as
  in a release build.
- `ExtractSpec` returns an error, `Diverges`, where the source's do-while
  would loop forever: the record read reaches the end of the file while
  the position is still at or before the first entry's start.
- `ReadBack.ExtractAssembled` is proved for files with at least one entry
  whose length fits a C# `int`. The empty case is `ReadBack.NoEntries`.
- `TableWalk.ExtractTable` needs at least one byte after the table. With
  none, the first entry starts at the end of the file and the do-while
  never ends; the model returns `Diverges` there.
