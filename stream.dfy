/** The io.Reader and io.Writer the codec is handed, abstracted to a finite
    byte sequence with a read position and to a growing output sequence. */
module Stream {
  import opened Wire

  /** Outcome of io.ReadFull(k) on the bytes `data` read from position `pos`:
      either the next k bytes, or a failure after every remaining byte has
      been consumed. */
  datatype ReadOutcome = ReadOutcome(ok: bool, bytes: seq<byte>, pos: nat)

  function ReadSpec(data: seq<byte>, pos: nat, k: nat): (r: ReadOutcome)
    requires pos <= |data|
  {
    if pos + k <= |data| then ReadOutcome(true, data[pos..pos + k], pos + k)
    else ReadOutcome(false, [], |data|)
  }

  class Reader {
    const data: seq<byte>
    var pos: nat

    ghost predicate Valid()
      reads this
    {
      pos <= |data|
    }

    constructor (bytes: seq<byte>)
      ensures Valid() && data == bytes && pos == 0
    {
      data := bytes;
      pos := 0;
    }

    /** binary.Read of a k-byte value: io.ReadFull into a k-byte buffer. */
    method ReadFull(k: nat) returns (ok: bool, bytes: seq<byte>)
      requires Valid()
      modifies this
      ensures Valid()
      ensures ReadOutcome(ok, bytes, pos) == ReadSpec(data, old(pos), k)
    {
      if pos + k <= |data| {
        ok, bytes := true, data[pos..pos + k];
        pos := pos + k;
      } else {
        ok, bytes := false, [];
        pos := |data|;
      }
    }
  }

  class Writer {
    var bytes: seq<byte>

    constructor ()
      ensures bytes == []
    {
      bytes := [];
    }

    /** binary.Write of a value whose little-endian image is `image`. */
    method Write(image: seq<byte>)
      modifies this
      ensures bytes == old(bytes) + image
    {
      bytes := bytes + image;
    }
  }
}
