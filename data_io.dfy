/**
 * Hadoop's DataInput and DataOutput as the split uses them: an input is the bytes not yet
 * read, an output the bytes written so far.  readFully behaves as DataInputStream's does.
 */
module DataIo {
  import opened Wrappers
  import opened Errors
  import opened Bytes

  /** The number of bytes readFully(b, off, len) takes from an input holding `available` bytes. */
  function Taken(available: nat, len: nat): (k: nat)
    ensures k <= available && k <= len && (k == len || k == available)
  {
    if len <= available then len else available
  }

  /** readFully's argument check: a negative length, or a non-empty range outside b. */
  predicate BadRange(length: nat, off: int32, len: int32) {
    len < 0 || (len > 0 && (off < 0 || off as int + len as int > length))
  }

  class DataInput {
    var remaining: seq<uint8>

    constructor (bytes: seq<uint8>)
      ensures remaining == bytes
    {
      remaining := bytes;
    }

    /**
     * readFully(b, off, len): copies the next len bytes of the input into b from offset off.
     * When the input runs out first, the bytes it had are copied and consumed and the call
     * fails with an EOFException.
     */
    method ReadFully(b: array<uint8>, off: int32, len: int32) returns (err: Option<Error>)
      modifies this, b
      ensures BadRange(b.Length, off, len) ==>
        err == Some(IndexOutOfBounds) && remaining == old(remaining) && b[..] == old(b[..])
      ensures !BadRange(b.Length, off, len) ==>
        var k := Taken(|old(remaining)|, len as int);
        && remaining == old(remaining)[k..]
        && (forall i :: 0 <= i < b.Length ==>
              b[i] == if off as int <= i < off as int + k then old(remaining)[i - off as int] else old(b[i]))
        && err == if k < len as int then Some(EndOfFile) else None
    {
      if BadRange(b.Length, off, len) {
        return Some(IndexOutOfBounds);
      }
      ghost var input := remaining;
      var n: int := 0;
      while n < len as int && remaining != []
        invariant 0 <= n <= len as int && n <= |input|
        invariant remaining == input[n..]
        invariant forall i :: 0 <= i < b.Length ==>
          b[i] == if off as int <= i < off as int + n then input[i - off as int] else old(b[i])
        decreases len as int - n
      {
        b[off as int + n] := remaining[0];
        remaining := remaining[1..];
        n := n + 1;
      }
      if n < len as int {
        return Some(EndOfFile);
      }
      return None;
    }
  }

  class DataOutput {
    var written: seq<uint8>

    constructor ()
      ensures written == []
    {
      written := [];
    }

    /** write(buf): appends all of buf. */
    method Write(buf: seq<uint8>)
      modifies this
      ensures written == old(written) + buf
    {
      written := written + buf;
    }
  }
}
