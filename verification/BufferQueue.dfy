/** `src/utils/bufferQueue.ts`: a byte queue over a list of chunks, read without copying when possible. */
module BufferQueues {
  import opened Common

  /** `chunk.copy(output, at, from, from + count)`. */
  method CopyInto(output: array<byte>, at: nat, chunk: bytes, from: nat, count: nat)
    requires at + count <= output.Length && from + count <= |chunk|
    modifies output
    ensures output[..at + count] == old(output[..at]) + chunk[from..from + count]
    ensures output[at + count..] == old(output[at + count..])
  {
    forall i | 0 <= i < count {
      output[at + i] := chunk[from + i];
    }
  }

  /** Taking some bytes and then some more is taking them together. */
  lemma TakeMore(all: bytes, rest: bytes, written: nat, count: nat)
    requires written <= |all| && rest == all[written..] && count <= |rest|
    ensures all[..written] + rest[..count] == all[..written + count] && rest[count..] == all[written + count..]
  {
  }

  class BufferQueue {
    var chunks: seq<bytes>
    var headOffset: nat
    var totalLength: nat

    /** No chunk is empty, and the head offset points inside the first one. */
    ghost predicate Valid()
      reads this
    {
      && (forall i :: 0 <= i < |chunks| ==> 0 < |chunks[i]|)
      && (if chunks == [] then headOffset == 0 else headOffset < |chunks[0]|)
      && totalLength == |Contents()|
    }

    /** The unread bytes, in order. */
    ghost function Contents(): bytes
      reads this
    {
      var all := Flatten(chunks);
      if headOffset <= |all| then all[headOffset..] else []
    }

    constructor ()
      ensures Valid() && Contents() == []
    {
      chunks := [];
      headOffset := 0;
      totalLength := 0;
    }

    method Push(chunk: bytes)
      requires Valid()
      modifies this
      ensures Valid()
      ensures Contents() == old(Contents()) + chunk
    {
      if |chunk| == 0 {
        return;
      }
      FlattenSnoc(chunks, chunk);
      ghost var was := chunks;
      chunks := chunks + [chunk];
      totalLength := totalLength + |chunk|;
      assert was != [] ==> chunks[0] == was[0];
      assert was != [] ==> Flatten(was) == was[0] + Flatten(was[1..]);
    }

    /** Drops `count` bytes of the head chunk, removing it once it is used up. */
    method Consume(count: nat)
      requires Valid() && chunks != [] && headOffset + count <= |chunks[0]|
      modifies this
      ensures Valid()
      ensures count <= |old(Contents())| && Contents() == old(Contents())[count..]
    {
      ghost var before := Contents();
      assert Flatten(chunks) == chunks[0] + Flatten(chunks[1..]);
      headOffset := headOffset + count;
      totalLength := totalLength - count;
      if headOffset == |chunks[0]| {
        assert before[count..] == Flatten(chunks[1..]);
        chunks := chunks[1..];
        headOffset := 0;
      }
    }

    /** The unread bytes start with what is left of the head chunk. */
    lemma HeadFirst(count: nat)
      requires Valid() && chunks != [] && headOffset + count <= |chunks[0]|
      ensures count <= |Contents()| && chunks[0][headOffset..headOffset + count] == Contents()[..count]
    {
      assert Flatten(chunks) == chunks[0] + Flatten(chunks[1..]);
    }

    /** Takes `length` bytes off the front, or fails and changes nothing when there are not that many. */
    method Read(length: int) returns (r: Result<bytes, string>)
      requires Valid()
      modifies this
      ensures Valid()
      ensures r.Ok? <==> 0 <= length <= |old(Contents())|
      ensures r.Err? ==> Contents() == old(Contents())
      ensures r.Ok? ==> r.value == old(Contents())[..length] && Contents() == old(Contents())[length..]
    {
      if length < 0 || length > totalLength {
        return Err("buffer queue read exceeds available bytes");
      }
      if length == 0 {
        return Ok([]);
      }
      if |chunks| > 0 && |chunks[0]| - headOffset >= length {
        HeadFirst(length);
        var output := chunks[0][headOffset..headOffset + length];
        Consume(length);
        return Ok(output);
      }
      var output := ReadAcross(length);
      return Ok(output);
    }

    /** The copying path of `read`: gathers `length` bytes from as many chunks as they span. */
    method ReadAcross(length: nat) returns (r: bytes)
      requires Valid() && length <= |Contents()|
      modifies this
      ensures Valid()
      ensures r == old(Contents())[..length] && Contents() == old(Contents())[length..]
    {
      ghost var all := Contents();
      var output := new byte[length];
      var written := 0;
      while written < length
        invariant 0 <= written <= length <= |all|
        invariant Valid()
        invariant output[..written] == all[..written]
        invariant Contents() == all[written..]
      {
        var available := |chunks[0]| - headOffset;
        var count := if available <= length - written then available else length - written;
        HeadFirst(count);
        TakeMore(all, Contents(), written, count);
        CopyInto(output, written, chunks[0], headOffset, count);
        assert output[..written + count] == all[..written + count];
        written := written + count;
        Consume(count);
      }
      r := output[..];
    }
  }
}
