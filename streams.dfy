/**
 * The byte streams the capture and replay code talk to: an append-only
 * writer (the capture file behind io.Writer) and a sequential reader (the
 * frame log behind fs.File) with the semantics of io.ReadFull and
 * binary.Read.
 */
module Streams {
  import opened Bytes
  import opened Options
  import LittleEndian

  /** The two errors io.ReadFull reports for a short stream. */
  datatype IoError = EOF | UnexpectedEOF

  /** The error io.ReadFull gives when want bytes are asked for and avail remain:
      none when enough remain, EOF when nothing at all was read, and
      UnexpectedEOF when only part of the buffer could be filled. */
  function ShortRead(want: nat, avail: nat): (e: Option<IoError>)
    ensures e.None? <==> want <= avail
    ensures e == Some(EOF) <==> avail == 0 < want
  {
    if want <= avail then None
    else if avail == 0 then Some(EOF)
    else Some(UnexpectedEOF)
  }

  /** Where the cursor stands after asking for n bytes at pos: a short read
      still consumes whatever was left. */
  function Advance(pos: nat, n: nat, len: nat): (p: nat)
    requires pos <= len
    ensures pos <= p <= len
  {
    if pos + n <= len then pos + n else len
  }

  /** What binary.Read leaves in a zeroed n-byte little-endian destination:
      the decoded value when n bytes remain, and zero (untouched) otherwise. */
  function Field(s: seq<byte>, pos: nat, n: nat): (v: nat)
    requires pos <= |s|
    // the destination holds an n-byte unsigned integer
    ensures v < LittleEndian.Pow256(n)
  {
    if pos + n <= |s| then LittleEndian.Decode(s[pos..pos + n]) else 0
  }

  /** An append-only output stream: the capture file. */
  class Writer {
    var written: seq<byte>

    constructor ()
      ensures written == []
    {
      written := [];
    }

    /** A write the device accepts in full. */
    method Write(b: seq<byte>)
      modifies this
      ensures written == old(written) + b
    {
      written := written + b;
    }

    /** A write the device cuts short after its first n bytes; io.Writer
        reports the count n together with an error. */
    method WriteShort(b: seq<byte>, n: nat) returns (count: nat)
      requires n <= |b|
      modifies this
      ensures count == n
      ensures written == old(written) + b[..n]
    {
      written := written + b[..n];
      count := n;
    }
  }

  /** A sequential input stream over fixed contents: the frame log. */
  class Reader {
    const data: seq<byte>
    var pos: nat

    ghost predicate Valid()
      reads this
    {
      pos <= |data|
    }

    constructor (contents: seq<byte>)
      ensures Valid()
      ensures data == contents && pos == 0
    {
      data := contents;
      pos := 0;
    }

    /** io.ReadFull into an n-byte buffer. */
    method ReadFull(n: nat) returns (b: seq<byte>, err: Option<IoError>)
      requires Valid()
      modifies this
      ensures Valid()
      ensures pos == Advance(old(pos), n, |data|)
      ensures err == ShortRead(n, |data| - old(pos))
      ensures err.None? ==> |b| == n && b == data[old(pos)..pos]
    {
      err := ShortRead(n, |data| - pos);
      if err.None? {
        b := data[pos..pos + n];
        pos := pos + n;
      } else {
        b := data[pos..];
        pos := |data|;
      }
    }

    /** binary.Read of an n-byte little-endian unsigned integer into a
        destination that starts at zero: on a short read binary.Read returns
        the error before storing anything, so the destination stays zero. */
    method ReadUint(n: nat) returns (v: nat, err: Option<IoError>)
      requires Valid()
      modifies this
      ensures Valid()
      ensures pos == Advance(old(pos), n, |data|)
      ensures err == ShortRead(n, |data| - old(pos))
      ensures v == Field(data, old(pos), n)
    {
      var b;
      b, err := ReadFull(n);
      if err.None? {
        v := LittleEndian.Decode(b);
      } else {
        v := 0;
      }
    }
  }
}
