/** The two stream endpoints the codec works against: an io.Writer that the
    encoder writes to (a bytes.Buffer, a zlib writer over one, a SHA-1
    hasher) and a bufio.Reader that the decoders consume. */
module Streams {
  import opened Bytes
  import opened Errors

  /** An io.Writer. `room` is how many more bytes it will take; None means
      it takes everything (bytes.Buffer and hash.Hash never fail). */
  class Writer {
    var written: seq<byte>
    var room: Option<nat>

    constructor Unbounded()
      ensures written == [] && room == None
    {
      written := [];
      room := None;
    }

    constructor Bounded(n: nat)
      ensures written == [] && room == Some(n)
    {
      written := [];
      room := Some(n);
    }

    /** How many of `k` offered bytes the writer takes now. */
    function Accepts(k: nat): (n: nat)
      reads this
      ensures n <= k
      ensures n == k <==> room.None? || k <= room.value
    {
      match room
      case None => k
      case Some(m) => if k <= m then k else m
    }

    /** io.Writer.Write: takes a prefix of `p` and reports an error exactly
        when it took less than all of it. */
    method Write(p: seq<byte>) returns (n: nat, err: Option<Error>)
      modifies this
      ensures n == old(Accepts(|p|))
      ensures written == old(written) + p[..n]
      ensures room == if old(room).None? then None else Some(old(room).value - n)
      ensures err.None? <==> n == |p|
      ensures err.Some? ==> err.value == ShortWrite
    {
      n := Accepts(|p|);
      written := written + p[..n];
      if room.Some? {
        room := Some(room.value - n);
      }
      err := if n == |p| then None else Some(ShortWrite);
    }
  }

  /** A bufio.Reader over an in-memory stream: the bytes `buf` and a cursor
      `pos` past everything already consumed. */
  class Reader {
    var buf: seq<byte>
    var pos: nat

    predicate Valid()
      reads this
    {
      pos <= |buf|
    }

    /** What has not been read yet. */
    function Rest(): seq<byte>
      reads this
      requires Valid()
    {
      buf[pos..]
    }

    constructor (data: seq<byte>)
      ensures Valid() && Rest() == data
    {
      buf := data;
      pos := 0;
    }

    /** bufio.Reader.ReadBytes(delim): everything up to and including the
        first `delim`; without one, everything left together with io.EOF. */
    method ReadBytes(delim: byte) returns (line: seq<byte>, err: Option<Error>)
      requires Valid()
      modifies this
      ensures Valid() && buf == old(buf)
      ensures var rest := old(Rest());
              var i := FirstIndex(rest, delim);
              if i < |rest| then
                line == rest[..i + 1] && err.None? && Rest() == rest[i + 1..]
              else
                line == rest && err == Some(EndOfStream) && Rest() == []
    {
      ghost var rest := Rest();
      var i := pos;
      while i < |buf| && buf[i] != delim
        invariant pos <= i <= |buf|
        invariant forall k :: pos <= k < i ==> buf[k] != delim
      {
        i := i + 1;
      }
      FirstIndexUnique(rest, delim, i - pos);
      if i < |buf| {
        line := buf[pos..i + 1];
        pos := i + 1;
        err := None;
      } else {
        line := buf[pos..];
        pos := |buf|;
        err := Some(EndOfStream);
      }
    }

    /** io.ReadAll: everything left. */
    method ReadAll() returns (data: seq<byte>)
      requires Valid()
      modifies this
      ensures Valid() && buf == old(buf)
      ensures data == old(Rest()) && Rest() == []
    {
      data := buf[pos..];
      pos := |buf|;
    }
  }
}
