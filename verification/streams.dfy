/**
 * The byte streams the codec talks to: a writer (`std::io::Write`) and a
 * reader (`std::io::Read`). They are collaborators of the codec, modelled
 * just far enough to say what `write_all` and `read_exact` do to them.
 */
module Streams {
  import opened IppTypes

  /**
   * A writer with a bounded amount of room left, like a `&mut [u8]` used as
   * `Write`: `write_all` stores what fits and fails with `WriteZero` when
   * the room runs out part-way.
   */
  class Sink {
    var written: seq<byte>
    var room: nat

    constructor (capacity: nat)
      ensures written == [] && room == capacity
    {
      written := [];
      room := capacity;
    }

    method WriteAll(data: seq<byte>) returns (r: Result<(), IoErrorKind>)
      modifies this
      ensures |data| <= old(room) ==>
        r == Ok(()) && written == old(written) + data && room == old(room) - |data|
      ensures |data| > old(room) ==>
        r == Err(WriteZero) && written == old(written) + data[..old(room)] && room == 0
    {
      if |data| <= room {
        written := written + data;
        room := room - |data|;
        r := Ok(());
      } else {
        written := written + data[..room];
        room := 0;
        r := Err(WriteZero);
      }
    }
  }

  /** A reader over a finite input: `rest` holds the bytes not yet consumed. */
  class Source {
    var rest: seq<byte>

    constructor (input: seq<byte>)
      ensures rest == input
    {
      rest := input;
    }

    /**
     * `Read::read_exact`: fills `buf` from the front of the input. On a short
     * input every remaining byte is consumed and the call fails with
     * `UnexpectedEof`; the buffer's contents are then unspecified.
     */
    method ReadExact(buf: array<byte>) returns (r: Result<(), IoErrorKind>)
      modifies this, buf
      ensures buf.Length <= |old(rest)| ==>
        r == Ok(()) && buf[..] == old(rest)[..buf.Length] && rest == old(rest)[buf.Length..]
      ensures buf.Length > |old(rest)| ==> r == Err(UnexpectedEof) && rest == []
    {
      var i := 0;
      while i < buf.Length
        invariant 0 <= i <= buf.Length
        invariant i <= |old(rest)| && rest == old(rest)[i..]
        invariant buf[..i] == old(rest)[..i]
      {
        if rest == [] {
          return Err(UnexpectedEof);
        }
        buf[i] := rest[0];
        rest := rest[1..];
        i := i + 1;
      }
      r := Ok(());
    }
  }
}
