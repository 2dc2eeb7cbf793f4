/** The seekable `FileStream` the codec reads .MSG files from and writes
    them to, held in memory: a byte array that grows on demand, the length
    of the file inside it and the stream position. Reading never moves
    past the end of the file; writing at or beyond the end extends it,
    and a gap left by seeking past the end reads as zeros. */
module Stream {
  import opened Bytes

  /** The file s after writing the byte b at position pos: a byte inside
      the file is replaced, a byte at or past the end extends the file,
      with zeros in any gap. */
  function Put(s: seq<byte>, pos: nat, b: byte): (r: seq<byte>)
    ensures |r| == Max(|s|, pos + 1)
  {
    if pos < |s| then s[pos := b] else s + Zeros(pos - |s|) + [b]
  }

  /** The file s after writing d at position pos, one byte after the
      other; writing nothing changes nothing (see `OverwriteAt`,
      `OverwriteAppend`, `OverwritePastEnd`, `OverwriteInside` and
      `ReadBack`). */
  function Overwrite(s: seq<byte>, pos: nat, d: seq<byte>): (r: seq<byte>)
    ensures |r| == if d == [] then |s| else Max(|s|, pos + |d|)
    decreases |d|
  {
    if d == [] then s else Overwrite(Put(s, pos, d[0]), pos + 1, d[1..])
  }

  /** What `Read(buffer, 0, count)` takes from the file at pos: up to count
      bytes, fewer at the end of the file, none past it. */
  function ReadAt(s: seq<byte>, pos: nat, count: nat): (r: seq<byte>)
    ensures |r| == if pos >= |s| then 0 else Min(count, |s| - pos)
  {
    if pos >= |s| then [] else s[pos..Min(|s|, pos + count)]
  }

  /** A buffer after a read stored `got` at its start: the rest keeps what
      it held before. */
  function ReadInto(buffer: seq<byte>, got: seq<byte>): (r: seq<byte>)
    requires |got| <= |buffer|
    ensures |r| == |buffer|
  {
    got + buffer[|got|..]
  }

  /** A byte of a non-empty write: from `d` inside the written range, from
      `s` before or after it, zero in a gap past the old end. */
  lemma {:induction false} OverwriteAt(s: seq<byte>, pos: nat, d: seq<byte>, i: nat)
    requires d != [] && i < Max(|s|, pos + |d|)
    ensures Overwrite(s, pos, d)[i] == if pos <= i < pos + |d| then d[i - pos] else if i < |s| then s[i] else 0
    decreases |d|
  {
    var t := Put(s, pos, d[0]);
    if |d| == 1 {
      assert Overwrite(s, pos, d) == Overwrite(t, pos + 1, []) == t;
    } else {
      OverwriteAt(t, pos + 1, d[1..], i);
    }
  }

  /** Two consecutive writes are one write of both. */
  lemma {:induction false} OverwriteTwice(s: seq<byte>, pos: nat, a: seq<byte>, b: seq<byte>)
    ensures Overwrite(Overwrite(s, pos, a), pos + |a|, b) == Overwrite(s, pos, a + b)
    decreases |a|
  {
    if a == [] {
      assert a + b == b;
    } else {
      assert (a + b)[0] == a[0] && (a + b)[1..] == a[1..] + b;
      OverwriteTwice(Put(s, pos, a[0]), pos + 1, a[1..], b);
    }
  }

  /** Writing exactly at the end appends. */
  lemma OverwriteAppend(s: seq<byte>, d: seq<byte>)
    ensures Overwrite(s, |s|, d) == s + d
  {
    if d != [] {
      forall i | 0 <= i < |s| + |d|
        ensures Overwrite(s, |s|, d)[i] == (s + d)[i]
      {
        OverwriteAt(s, |s|, d, i);
      }
    }
  }

  /** Writing past the end first fills the gap with zeros. */
  lemma OverwritePastEnd(s: seq<byte>, pos: nat, d: seq<byte>)
    requires pos >= |s| && d != []
    ensures Overwrite(s, pos, d) == s + Zeros(pos - |s|) + d
  {
    forall i | 0 <= i < pos + |d|
      ensures Overwrite(s, pos, d)[i] == (s + Zeros(pos - |s|) + d)[i]
    {
      OverwriteAt(s, pos, d, i);
    }
  }

  /** Writing inside the file replaces |d| bytes and keeps the length. */
  lemma OverwriteInside(s: seq<byte>, pos: nat, d: seq<byte>)
    requires pos + |d| <= |s|
    ensures Overwrite(s, pos, d) == s[..pos] + d + s[pos + |d|..]
  {
    if d == [] {
      assert s[..pos] + s[pos..] == s;
    } else {
      forall i | 0 <= i < |s|
        ensures Overwrite(s, pos, d)[i] == (s[..pos] + d + s[pos + |d|..])[i]
      {
        OverwriteAt(s, pos, d, i);
      }
    }
  }

  /** The array of a stream after a write in place: the written range
      holds d, the rest what it held before, which was the file followed
      by zeros. Its first bytes are the file after the write. */
  lemma WrittenBuffer(file: seq<byte>, before: seq<byte>, after: seq<byte>, pos: nat, d: seq<byte>)
    requires d != [] && |file| <= |before| == |after| && pos + |d| <= |after|
    requires before[..|file|] == file && forall i :: |file| <= i < |before| ==> before[i] == 0
    requires forall i :: 0 <= i < |after| ==> after[i] == if pos <= i < pos + |d| then d[i - pos] else before[i]
    ensures after[..Max(|file|, pos + |d|)] == Overwrite(file, pos, d)
  {
    var n := Max(|file|, pos + |d|);
    forall i | 0 <= i < n
      ensures after[i] == Overwrite(file, pos, d)[i]
    {
      OverwriteAt(file, pos, d, i);
      if i < |file| {
        assert before[i] == file[i];
      }
    }
  }

  /** What was written is read back, and nothing else changes. */
  lemma ReadBack(s: seq<byte>, pos: nat, d: seq<byte>)
    ensures ReadAt(Overwrite(s, pos, d), pos, |d|) == d
    ensures forall i :: 0 <= i < |s| && !(pos <= i < pos + |d|) ==> Overwrite(s, pos, d)[i] == s[i]
  {
    if d != [] {
      var r := Overwrite(s, pos, d);
      forall i | 0 <= i < |s| && !(pos <= i < pos + |d|)
        ensures r[i] == s[i]
      {
        OverwriteAt(s, pos, d, i);
      }
      forall k | 0 <= k < |d|
        ensures ReadAt(r, pos, |d|)[k] == d[k]
      {
        OverwriteAt(s, pos, d, pos + k);
      }
    }
  }

  class MsgStream {
    var buf: array<byte>
    var length: nat
    var position: nat
    /** The bytes of the file, as a value. */
    ghost var data: seq<byte>

    /** The file occupies the first `length` bytes of the array; the spare
        capacity holds zeros. */
    ghost predicate Valid()
      reads this, buf
    {
      length <= buf.Length && |data| == length && buf[..length] == data &&
      forall i :: length <= i < buf.Length ==> buf[i] == 0
    }

    /** The bytes of the file. */
    ghost function Contents(): seq<byte>
      reads this
    {
      data
    }

    /** A newly created, empty file (`FileInfo.Create`). */
    constructor ()
      ensures Valid() && Contents() == [] && position == 0 && fresh(buf)
    {
      buf := new byte[16](_ => 0);
      length := 0;
      position := 0;
      data := [];
    }

    /** An existing file opened for reading (`FileMode.Open`). */
    constructor Open(file: seq<byte>)
      ensures Valid() && Contents() == file && position == 0 && fresh(buf)
    {
      buf := new byte[|file|](i requires 0 <= i < |file| => file[i]);
      length := |file|;
      position := 0;
      data := file;
      new;
      assert buf[..length] == file;
    }

    /** `Seek(offset, SeekOrigin.Begin)`: a negative offset throws, so the
        callers must pass a non-negative one; seeking past the end is
        allowed and changes nothing but the position. */
    method Seek(offset: nat)
      requires Valid()
      modifies this`position
      ensures Valid() && Contents() == old(Contents()) && position == offset
    {
      position := offset;
    }

    /** `Read(dest, 0, count)`: copies what `ReadAt` gives to the start of
        dest, leaves the rest of dest as it was, returns how many bytes it
        copied and moves the position past them. */
    method Read(dest: array<byte>, count: nat) returns (n: nat)
      requires Valid() && count <= dest.Length && dest != buf
      modifies this`position, dest
      ensures Valid() && Contents() == old(Contents())
      ensures n == |ReadAt(Contents(), old(position), count)|
      ensures dest[..] == ReadInto(old(dest[..]), ReadAt(Contents(), old(position), count))
      ensures position == old(position) + n
    {
      ghost var got := ReadAt(Contents(), position, count);
      ghost var before := dest[..];
      n := if position >= length then 0 else Min(count, length - position);
      var j := 0;
      while j < n
        invariant 0 <= j <= n
        invariant forall i :: 0 <= i < dest.Length ==> dest[i] == if i < j then got[i] else before[i]
        modifies dest
      {
        assert got[j] == buf[position + j];
        dest[j] := buf[position + j];
        j := j + 1;
      }
      position := position + n;
      assert dest[..] == ReadInto(before, got);
    }

    /** Makes room for at least n bytes, keeping the file. */
    method Grow(n: nat)
      requires Valid() && n > buf.Length
      modifies this
      ensures Valid() && fresh(buf) && buf.Length >= n
      ensures Contents() == old(Contents()) && position == old(position)
    {
      var bigger := new byte[Max(n, 2 * buf.Length)](_ => 0);
      var j := 0;
      while j < length
        invariant 0 <= j <= length
        invariant forall i :: 0 <= i < bigger.Length ==> bigger[i] == if i < j then buf[i] else 0
        modifies bigger
      {
        bigger[j] := buf[j];
        j := j + 1;
      }
      assert bigger[..length] == buf[..length];
      buf := bigger;
    }

    /** Copies d into the array from index at. */
    method Place(d: seq<byte>, at: nat)
      requires at + |d| <= buf.Length
      modifies buf
      ensures forall i :: 0 <= i < buf.Length ==> buf[i] == if at <= i < at + |d| then d[i - at] else old(buf[i])
    {
      var a, j := buf, 0;
      ghost var before := a[..];
      while j < |d|
        invariant 0 <= j <= |d| && a == buf
        invariant forall i :: 0 <= i < a.Length ==> a[i] == if at <= i < at + j then d[i - at] else before[i]
        modifies a
      {
        a[at + j] := d[j];
        j := j + 1;
      }
    }

    /** `Write(d)`: overwrites or extends the file from the position and
        moves the position past the written bytes. */
    method Write(d: seq<byte>)
      requires Valid()
      modifies this, buf
      ensures Valid() && (fresh(buf) || buf == old(buf))
      ensures Contents() == Overwrite(old(Contents()), old(position), d)
      ensures position == old(position) + |d|
    {
      ghost var file := Contents();
      if d == [] {
        return;
      }
      var end := position + |d|;
      if end > buf.Length {
        Grow(end);
      }
      ghost var before := buf[..];
      Place(d, position);
      WrittenBuffer(file, before, buf[..], position, d);
      length := Max(length, end);
      position := end;
      data := Overwrite(file, old(position), d);
    }

    /** `WriteByte(b)`. */
    method WriteByte(b: byte)
      requires Valid()
      modifies this, buf
      ensures Valid() && (fresh(buf) || buf == old(buf))
      ensures Contents() == Overwrite(old(Contents()), old(position), [b])
      ensures position == old(position) + 1
    {
      Write([b]);
    }
  }
}
