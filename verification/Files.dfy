/** Positional reads and writes that may move fewer bytes than asked, as the operating system allows,
    and the loop that writes a whole buffer over such writes. */
module Files {
  import opened Wrappers
  import opened Bits

  function ZeroBytes(n: nat): (r: seq<byte>)
    ensures |r| == n
  {
    seq(n, i => 0)
  }

  /** File contents after writing `bytes` at `position`; a gap before it reads as zeros. */
  function Overwrite(contents: seq<byte>, position: nat, bytes: seq<byte>): (r: seq<byte>)
    ensures |r| >= position + |bytes| || bytes == []
    ensures position <= |contents| && bytes != [] ==> r[position..position + |bytes|] == bytes
  {
    if bytes == [] then contents
    else if position >= |contents| then contents + ZeroBytes(position - |contents|) + bytes
    else contents[..position] + bytes
         + (if position + |bytes| < |contents| then contents[position + |bytes|..] else [])
  }

  /** A file opened for reading. */
  class InputHandle {
    const contents: seq<byte>

    constructor (contents: seq<byte>)
      ensures this.contents == contents
    {
      this.contents := contents;
    }

    /** Moves any number of bytes up to `maximum`; none only when nothing was asked for or the file ends. */
    method Read(maximum: nat, position: nat) returns (chunk: seq<byte>)
      ensures |chunk| <= maximum
      ensures chunk != [] ==> position + |chunk| <= |contents| && chunk == contents[position..position + |chunk|]
      ensures chunk == [] <==> maximum == 0 || position >= |contents|
    {
      if maximum == 0 || position >= |contents| {
        chunk := [];
      } else {
        var count :| 1 <= count <= maximum && position + count <= |contents|;
        chunk := contents[position..position + count];
      }
    }
  }

  /** A file opened for writing. */
  class OutputHandle {
    var contents: seq<byte>
    const stalls: bool

    /** A handle that stalls may take no byte of a write. */
    constructor (stalls: bool)
      ensures contents == [] && this.stalls == stalls
    {
      contents := [];
      this.stalls := stalls;
    }

    /** Moves any number of bytes, possibly none when the handle stalls. */
    method Write(bytes: seq<byte>, position: nat) returns (count: nat)
      modifies this
      ensures count <= |bytes|
      ensures count == 0 ==> bytes == [] || stalls
      ensures contents == Overwrite(old(contents), position, bytes[..count])
    {
      count :| 0 <= count <= |bytes| && (count == 0 ==> bytes == [] || stalls);
      contents := Overwrite(contents, position, bytes[..count]);
    }

    method Truncate(size: nat)
      requires size <= |contents|
      modifies this
      ensures contents == old(contents)[..size]
    {
      contents := contents[..size];
    }
  }

  /** Writes all of `bytes` at the end of what was written so far, or reports a write that moved nothing. */
  method WriteAll(handle: OutputHandle, bytes: seq<byte>, position: nat) returns (next: Result<nat, string>)
    requires |handle.contents| == position
    modifies handle
    ensures next.Ok? ==> handle.contents == old(handle.contents) + bytes && next.value == position + |bytes|
    ensures next.Err? ==> handle.stalls
    ensures next.Err? ==> exists moved :: 0 <= moved < |bytes| && handle.contents == old(handle.contents) + bytes[..moved]
  {
    var written := 0;
    while written < |bytes|
      invariant 0 <= written <= |bytes|
      invariant handle.contents == old(handle.contents) + bytes[..written]
    {
      var count := handle.Write(bytes[written..], position + written);
      if count <= 0 {
        return Err("write made no progress");
      }
      assert bytes[..written] + bytes[written..][..count] == bytes[..written + count];
      written := written + count;
    }
    next := Ok(position + written);
  }
}
