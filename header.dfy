/** The 16-byte .MSG header: how `ParseHeader` reads it (Program.cs:484-517)
    and what `ConvertToMsg` writes (Program.cs:667-682, 810-814). The two
    disagree on field widths: the reader takes a 16-bit "bottom screen
    entry" at offset 8 that overlaps the 16-bit entry count at offset 9,
    and a 16-bit file size at offset 12 where the writer stores 32 bits. */
module Header {
  import opened Bytes

  /** The ASCII bytes of "TEXT". */
  const Magic: seq<byte> := [0x54, 0x45, 0x58, 0x54]

  /** The writer's fixed "bottom screen" marker byte. */
  const BottomScreenMarker: byte := 0x02

  /** `ParseHeader`'s boolean result and its three out-parameters. */
  datatype HeaderFields = HeaderFields(ok: bool, bottomScreenEntry: int, numOfDelimiters: int, fileSize: int)

  /** Accepts exactly the buffers whose bytes 4..7 spell "TEXT"; a rejected
      header sets every out-parameter to -1; an accepted one yields three
      little-endian 16-bit values. */
  function ParseHeader(h: seq<byte>): (r: HeaderFields)
    requires |h| == 16
    ensures r.ok <==> h[4..8] == Magic
    ensures !r.ok ==> r.bottomScreenEntry == -1 && r.numOfDelimiters == -1 && r.fileSize == -1
    ensures r.ok ==> 0 <= r.bottomScreenEntry < 0x1_0000 && 0 <= r.numOfDelimiters < 0x1_0000 && 0 <= r.fileSize < 0x1_0000
    ensures r.ok ==> r.bottomScreenEntry == h[8] as int + 256 * h[9] as int &&
                     r.numOfDelimiters == h[9] as int + 256 * h[10] as int &&
                     r.fileSize == h[12] as int + 256 * h[13] as int
  {
    if h[4..8] != Magic then HeaderFields(false, -1, -1, -1)
    else HeaderFields(true, U16At(h, 8), U16At(h, 9), U16At(h, 12))
  }

  /** The "bottom screen entry" and the entry count share byte 9: the high
      byte of the first is the low byte of the second. */
  lemma HeaderFieldsOverlap(h: seq<byte>)
    requires |h| == 16 && ParseHeader(h).ok
    ensures ParseHeader(h).bottomScreenEntry / 256 == ParseHeader(h).numOfDelimiters % 256
    ensures ParseHeader(h).bottomScreenEntry % 256 == h[8] as int
  {
    var r := ParseHeader(h);
    var a, b, c := h[8] as int, h[9] as int, h[10] as int;
    assert r.bottomScreenEntry == a + 256 * b;
    assert r.numOfDelimiters == b + 256 * c;
  }

  /** The header as first written, before the file length is known: zeros,
      "TEXT", the marker, the entry count truncated to `UInt16`, then zeros. */
  function InitialHeader(n: nat): (h: seq<byte>)
    ensures |h| == 16
  {
    [0, 0, 0, 0] + Magic + [BottomScreenMarker] + Le16(n % 0x1_0000) + [0, 0, 0, 0, 0]
  }

  /** The header after the final seek to offset 12 has written the file
      length as a 32-bit integer. */
  function FinalHeader(n: nat, fileLength: int): (h: seq<byte>)
    ensures |h| == 16
  {
    InitialHeader(n)[..12] + Le32(fileLength)
  }

  /** The 16-bit read at offset 0 of a 32-bit write keeps x modulo 2^16. */
  lemma {:induction false} U16AtLe32(x: int)
    ensures U16At(Le32(x), 0) == x % 0x1_0000
  {
    var m := x % TWO32;
    var q := x / TWO32;
    var b0, q1 := m % 256, m / 256;
    var b1, q2 := q1 % 256, q1 / 256;
    assert x == TWO32 * q + m;
    assert m == 256 * q1 + b0;
    assert q1 == 256 * q2 + b1;
    assert U16At(Le32(x), 0) == b0 + 256 * b1;
    assert x == 0x1_0000 * (0x1_0000 * q + q2) + (b0 + 256 * b1);
    Mod16Of(x, 0x1_0000 * q + q2, b0 + 256 * b1);
  }

  /** The low byte of the written count is the low byte of n. */
  lemma {:induction false} CountLowByte(n: nat)
    ensures Le16(n % 0x1_0000)[0] as int == n % 256
  {
    var c := n % 0x1_0000;
    var q := n / 0x1_0000;
    assert n == 0x1_0000 * q + c;
    assert n == 256 * (256 * q + c / 256) + c % 256;
  }

  /** What the reader makes of what the writer wrote: the magic is
      accepted, the count comes back modulo 2^16, the "bottom screen entry"
      mixes the marker with the count's low byte, and the file size comes
      back modulo 2^16. */
  lemma {:induction false} ParseWrittenHeader(n: nat, fileLength: int)
    ensures ParseHeader(FinalHeader(n, fileLength)) ==
            HeaderFields(true, 2 + 256 * (n % 256), n % 0x1_0000, fileLength % 0x1_0000)
  {
    var h := FinalHeader(n, fileLength);
    var c := n % 0x1_0000;
    var cb := Le16(c);
    var fb := Le32(fileLength);
    assert h == [0, 0, 0, 0] + Magic + [2, cb[0], cb[1], 0] + fb;
    assert h[4..8] == Magic;
    U16AtLe16(c);
    CountLowByte(n);
    U16AtLe32(fileLength);
    assert U16At(h, 8) == 2 + 256 * (cb[0] as int);
    assert U16At(h, 9) == U16At(cb, 0);
    assert U16At(h, 12) == U16At(fb, 0);
  }

  /** A header as found in a game file: "TEXT" is accepted, the count is
      read from the window at offset 9 and the size from offset 12. */
  lemma SampleHeader()
    ensures ParseHeader([0x00, 0x00, 0x00, 0x00, 0x54, 0x45, 0x58, 0x54, 0x02, 0x1F, 0x00, 0x00, 0x2A, 0x07, 0x00, 0x00])
            == HeaderFields(true, 0x1F02, 0x1F, 0x072A)
  {
  }
}
