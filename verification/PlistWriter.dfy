/** The buffered output stream of the writer in CFBinaryPList.c. */
module PlistWriter {
  import opened PlistBytes

  /**
    * The destination. A data object takes everything; for a write stream, `script` lists what each
    * coming call of CFWriteStreamWrite will report, and the environment chooses it.
    */
  class Stream {
    const isData: bool
    var received: seq<Byte>
    var script: seq<int>
    var failed: bool

    constructor (isData: bool, received: seq<Byte>, script: seq<int>)
      ensures this.isData == isData && this.received == received && this.script == script && !failed
    {
      this.isData, this.received, this.script, this.failed := isData, received, script, false;
    }

    /** CFDataAppendBytes. */
    method Append(bytes: seq<Byte>)
      modifies this
      ensures received == old(received) + bytes && failed == old(failed)
    {
      received := received + bytes;
    }

    /** CFWriteStreamWrite: takes a nonempty prefix of the bytes, or fails. */
    method Write(bytes: seq<Byte>) returns (ret: int)
      requires |bytes| > 0
      modifies this
      ensures ret <= |bytes|
      ensures ret > 0 ==> received == old(received) + bytes[..ret] && failed == old(failed)
      ensures ret <= 0 ==> received == old(received) && failed
    {
      ret := |bytes|;
      if script != [] {
        ret := if script[0] <= |bytes| then script[0] else |bytes|;
        script := script[1..];
      }
      if ret > 0 {
        received := received + bytes[..ret];
      } else {
        failed := true;
      }
    }
  }

  const BUFFER_SIZE: nat := 8192 - 32

  class WriteBuffer {
    const stream: Stream
    const buffer: array<Byte>
    var error: bool
    var written: nat
    var used: nat
    ghost const start: seq<Byte>   // what the stream held before
    ghost var logical: seq<Byte>   // everything passed to BufferWrite so far

    /** Bytes emitted plus the buffered prefix are everything written so far. */
    ghost predicate Valid()
      reads this, stream, buffer
    {
      && buffer.Length == BUFFER_SIZE && used < BUFFER_SIZE
      && error == stream.failed
      && (!error ==>
            && written <= |logical|
            && stream.received == start + logical[..written]
            && buffer[..used] == logical[written..])
      && (error ==> stream.received <= start + logical)
    }

    constructor (stream: Stream)
      requires !stream.failed
      ensures Valid() && fresh(buffer) && this.stream == stream && !error
      ensures logical == [] && start == stream.received
    {
      this.stream := stream;
      this.buffer := new Byte[BUFFER_SIZE];
      this.error, this.written, this.used := false, 0, 0;
      this.start, this.logical := stream.received, [];
    }

    /** The bytes a WriteBytes call starts from and ends with, on success and on failure. */
    twostate predicate Emits(bytes: seq<Byte>)
      reads this, stream
    {
      && error == stream.failed
      && (!error ==>
            !old(error) && stream.received == old(stream.received) + bytes && written == old(written) + |bytes|)
      && (error && !old(error) ==> old(stream.received) <= stream.received <= old(stream.received) + bytes)
      && (old(error) ==> error && stream.received == old(stream.received))
    }

    /** `writeBytes`. */
    method WriteBytes(bytes: seq<Byte>)
      requires error == stream.failed
      modifies this`error, this`written, stream
      ensures Emits(bytes)
    {
      if |bytes| == 0 { return; }
      if error { return; }
      if stream.isData {
        stream.Append(bytes);
        written := written + |bytes|;
      } else {
        var rest := bytes;
        ghost var done := [];
        while 0 < |rest|
          invariant !error && !stream.failed
          invariant done + rest == bytes
          invariant stream.received == old(stream.received) + done
          invariant written == old(written) + |done|
        {
          var ret := stream.Write(rest);
          if ret <= 0 {
            error := true;
            assert stream.received <= old(stream.received) + bytes by {
              assert old(stream.received) + bytes == (old(stream.received) + done) + rest;
            }
            return;
          }
          written := written + ret;
          done := done + rest[..ret];
          rest := rest[ret..];
        }
      }
    }

    /** Copies bytes into the buffer, as the unrolled copy and the memmove calls do. */
    method CopyIn(at: nat, bytes: seq<Byte>)
      requires at + |bytes| <= buffer.Length
      modifies buffer
      ensures buffer[..at] == old(buffer[..at])
      ensures buffer[at..at + |bytes|] == bytes
    {
      for i := 0 to |bytes|
        invariant buffer[..at] == old(buffer[..at])
        invariant buffer[at..at + i] == bytes[..i]
      {
        buffer[at + i] := bytes[i];
        assert buffer[at..at + i + 1] == buffer[at..at + i] + [bytes[i]];
      }
    }

    /** `bufferFlush`. */
    method BufferFlush()
      requires Valid()
      modifies this, stream
      ensures Valid() && used == 0 && logical == old(logical)
      ensures !error ==> stream.received == start + logical && written == |logical|
      ensures old(error) ==> error
    {
      ghost var before := stream.received;
      WriteBytes(buffer[..used]);
      used := 0;
      if !old(error) {
        assert before + buffer[..old(used)] == start + logical by {
          assert logical == logical[..old(written)] + logical[old(written)..];
        }
      }
    }

    lemma Splice(emitted: nat, head: seq<Byte>, more: seq<Byte>)
      requires emitted <= |logical| && head == logical[emitted..]
      ensures (start + logical[..emitted]) + (head + more) == start + (logical + more)
    {
      assert logical == logical[..emitted] + head;
    }

    /** The first branch of `bufferWrite`: too large for the buffer, written straight through. */
    method WriteThrough(bytes: seq<Byte>)
      requires Valid()
      modifies this, stream
      ensures Valid() && logical == old(logical) + bytes
      ensures old(error) ==> error
    {
      ghost var target := logical + bytes;
      assert start + target == start + logical + bytes;
      BufferFlush();
      WriteBytes(bytes);
      logical := target;
    }

    /** The last part of `bufferWrite`: the buffer is full. */
    method DrainFull(ghost head: seq<Byte>, more: seq<Byte>, rest: seq<Byte>)
      requires buffer.Length == BUFFER_SIZE && |rest| < BUFFER_SIZE && error == stream.failed
      requires !error ==>
        && written <= |logical| && head == logical[written..]
        && stream.received == start + logical[..written]
        && buffer[..] == head + more
      requires error ==> stream.received <= start + logical
      modifies this`error, this`written, this`used, stream, buffer
      ensures used == |rest| && buffer[..used] == rest && error == stream.failed
      ensures old(error) ==> error
      ensures !error ==> written == |logical| + |more| && stream.received == start + (logical + more)
      ensures error ==> stream.received <= start + (logical + more)
    {
      assert start + logical <= start + (logical + more);
      if !error {
        Splice(written, head, more);
      }
      WriteBytes(buffer[..]);
      CopyIn(0, rest);
      used := |rest|;
    }

    /** `bufferWrite`. */
    method BufferWrite(bytes: seq<Byte>)
      requires Valid()
      modifies this, stream, buffer
      ensures Valid() && logical == old(logical) + bytes
      ensures old(error) ==> error
    {
      ghost var target := logical + bytes;
      if |bytes| == 0 {
        assert target == logical;
        return;
      }
      if BUFFER_SIZE <= |bytes| {
        WriteThrough(bytes);
        return;
      }
      var room := BUFFER_SIZE - used;
      var copyLen := if |bytes| < room then |bytes| else room;
      ghost var head := buffer[..used];
      CopyIn(used, bytes[..copyLen]);
      used := used + copyLen;
      assert buffer[..used] == head + bytes[..copyLen];
      assert logical + bytes[..copyLen] <= target;
      assert target == logical + bytes[..copyLen] + bytes[copyLen..];
      if used == BUFFER_SIZE {
        assert buffer[..] == buffer[..used];
        DrainFull(head, bytes[..copyLen], bytes[copyLen..]);
      }
      logical := target;
    }
  }
}
