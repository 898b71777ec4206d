/** The serializer of message_serializer.cc and the zero-copy stream of zero_copy_stream.cc. */
module ZeroCopyStream {
  import opened Framing
  import opened Deframer

  datatype Message = Message(compressed: bool, slices: Slices)

  function FrameOf(m: Message): Bytes {
    Frame(m.compressed, Flatten(m.slices))
  }

  function FramesOf(ms: seq<Message>): Bytes {
    if ms == [] then [] else FrameOf(ms[0]) + FramesOf(ms[1..])
  }

  lemma {:induction false} FramesOfAppend(ms: seq<Message>, m: Message)
    ensures FramesOf(ms + [m]) == FramesOf(ms) + FrameOf(m)
  {
    if ms == [] {
      assert [] + [m] == [m] && [m][1..] == [];
    } else {
      assert (ms + [m])[1..] == ms[1..] + [m];
      FramesOfAppend(ms[1..], m);
    }
  }

  /** What a returned pointer points to: the serializer's delimiter array, or a slice. */
  datatype Buffer = Delimiter | Slice(bytes: Bytes)

  class GrpcMessageSerializer {
    var messages: seq<Message>
    var delimiterConsumed: bool
    var currentSliceNo: nat
    var byteCount: nat
    const delimiter: array<byte>

    /** The bytes of the first message that have not been returned. */
    ghost function Front(): Bytes
      requires messages != [] && currentSliceNo <= |messages[0].slices|
      reads this
    {
      if delimiterConsumed then Flatten(messages[0].slices[currentSliceNo..]) else FrameOf(messages[0])
    }

    ghost predicate Shape()
      reads this
    {
      && delimiter.Length == HEADER_SIZE
      && (messages == [] || !delimiterConsumed ==> currentSliceNo == 0)
      && (messages == [] ==> !delimiterConsumed)
      && (messages != [] ==> currentSliceNo <= |messages[0].slices|)
    }

    /** The bytes that Next has still to return. */
    ghost function Contents(): Bytes
      requires Shape()
      reads this
    {
      if messages == [] then [] else Front() + FramesOf(messages[1..])
    }

    ghost predicate Valid()
      reads this
    {
      Shape() && byteCount == |Contents()|
    }

    ghost function BytesOf(b: Buffer): Bytes
      reads this, delimiter
    {
      if b.Delimiter? then delimiter[..] else b.bytes
    }

    constructor ()
      ensures Valid() && Contents() == [] && fresh(delimiter)
    {
      delimiter := new byte[HEADER_SIZE](_ => 0);
      messages, delimiterConsumed, currentSliceNo, byteCount := [], false, 0, 0;
    }

    method AddMessage(m: Message)
      requires Valid()
      modifies this
      ensures Valid() && Contents() == old(Contents()) + FrameOf(m)
    {
      var length := TotalLength(m.slices);
      ghost var before := messages;
      if before == [] {
        assert [m][1..] == [] && FrameOf(m) + [] == FrameOf(m) == [] + FrameOf(m);
      } else {
        assert (before + [m])[1..] == before[1..] + [m];
        FramesOfAppend(before[1..], m);
        Regroup(Front(), FramesOf(before[1..]), FrameOf(m));
      }
      messages := messages + [m];
      byteCount := byteCount + length + HEADER_SIZE;
    }

    /** The number of calls of NextInternal that can still succeed, for the loop of Next. */
    ghost function Pending(): (nat, nat)
      reads this
    {
      (|messages|,
       if messages == [] then 0
       else
         var n := |messages[0].slices|;
         if !delimiterConsumed then n + 1 else if currentSliceNo <= n then n - currentSliceNo else 0)
    }

    /** Drops the first message when all of it has been returned. */
    method PopConsumed()
      requires Valid()
      modifies this
      ensures Valid() && Contents() == old(Contents())
      ensures messages != [] && delimiterConsumed ==> currentSliceNo < |messages[0].slices|
      ensures Pending() == old(Pending()) || Pending().0 < old(Pending()).0
    {
      if messages != [] && delimiterConsumed && currentSliceNo >= |messages[0].slices| {
        assert Front() == [];
        assert [] + FramesOf(messages[1..]) == FramesOf(messages[1..]);
        messages := messages[1..];
        delimiterConsumed := false;
        currentSliceNo := 0;
      }
    }

    /** Writes the delimiter of the first message. */
    method EmitDelimiter()
      requires Valid() && messages != [] && !delimiterConsumed
      modifies this, delimiter
      ensures Valid() && old(Contents()) == delimiter[..] + Contents()
      ensures messages == old(messages) && delimiterConsumed
    {
      var front := messages[0];
      var length := TotalLength(front.slices);
      WriteHeader(delimiter, front.compressed, length);
      assert delimiter[..HEADER_SIZE] == delimiter[..];
      delimiterConsumed := true;
      currentSliceNo := 0;
      byteCount := byteCount - HEADER_SIZE;
      assert front.slices[0..] == front.slices;
      Regroup(delimiter[..], Flatten(front.slices), FramesOf(messages[1..]));
    }

    method EmitSlice() returns (slice: Bytes)
      requires Valid() && messages != [] && delimiterConsumed && currentSliceNo < |messages[0].slices|
      modifies this
      ensures Valid() && old(Contents()) == slice + Contents()
      ensures messages == old(messages) && delimiterConsumed && currentSliceNo == old(currentSliceNo) + 1
    {
      var slices := messages[0].slices;
      slice := slices[currentSliceNo];
      assert slices[currentSliceNo..][1..] == slices[currentSliceNo + 1..];
      Regroup(slice, Flatten(slices[currentSliceNo + 1..]), FramesOf(messages[1..]));
      currentSliceNo := currentSliceNo + 1;
      byteCount := byteCount - |slice|;
    }

    /** The next buffer, which may be empty. */
    method NextInternal() returns (ok: bool, buffer: Buffer)
      requires Valid()
      modifies this, delimiter
      ensures Valid()
      ensures ok ==> old(Contents()) == BytesOf(buffer) + Contents()
      ensures !ok ==> old(Contents()) == [] && Contents() == [] && delimiter[..] == old(delimiter[..])
      ensures ok ==> var (m, n), (m0, n0) := Pending(), old(Pending()); m < m0 || (m == m0 && n < n0)
    {
      PopConsumed();
      if messages == [] {
        return false, Delimiter;
      }
      if !delimiterConsumed {
        EmitDelimiter();
        return true, Delimiter;
      }
      var slice := EmitSlice();
      return true, Slice(slice);
    }

    /** The next non-empty buffer; fails exactly when nothing is left. */
    method Next() returns (ok: bool, buffer: Buffer)
      requires Valid()
      modifies this, delimiter
      ensures Valid() && (ok <==> old(Contents()) != [])
      ensures ok ==> BytesOf(buffer) != [] && old(Contents()) == BytesOf(buffer) + Contents()
      ensures !ok ==> Contents() == []
    {
      while true
        invariant Valid() && Contents() == old(Contents())
        decreases Pending().0, Pending().1
      {
        ok, buffer := NextInternal();
        if !ok {
          return;
        }
        var size := if buffer.Delimiter? then HEADER_SIZE else |buffer.bytes|;
        if size != 0 {
          return;
        }
      }
    }
  }

  lemma MiddleSlice(a: Bytes, b: Bytes, c: Bytes, k: nat)
    requires k <= |b|
    ensures (a + b + c)[|a| + k..|a| + |b|] == b[k..]
  {
  }

  /** A flat byte cursor over everything added: bytesRead is its position. */
  class GrpcZeroCopyInputStream {
    const serializer: GrpcMessageSerializer
    var currentBuffer: Buffer
    var currentBufferSize: nat
    var position: nat
    var bytesRead: nat
    var finished: bool
    /** All framed bytes added so far, and those before the current buffer. */
    ghost var Added: Bytes
    ghost var Before: Bytes

    /** The bytes of the current buffer. */
    ghost function Current(): Bytes
      requires currentBufferSize <= |serializer.BytesOf(currentBuffer)|
      reads this, serializer, serializer.delimiter
    {
      serializer.BytesOf(currentBuffer)[..currentBufferSize]
    }

    ghost predicate Valid()
      reads this, serializer, serializer.delimiter
    {
      && serializer.Valid()
      && position <= currentBufferSize <= |serializer.BytesOf(currentBuffer)|
      && bytesRead == |Before| + position
      && Added == Before + Current() + serializer.Contents()
    }

    constructor ()
      ensures Valid() && Added == [] && bytesRead == 0 && !finished
      ensures fresh(serializer) && fresh(serializer.delimiter)
    {
      serializer := new GrpcMessageSerializer();
      currentBuffer, currentBufferSize, position, bytesRead, finished := Slice([]), 0, 0, 0, false;
      Added, Before := [], [];
    }

    method AddMessage(m: Message)
      requires Valid()
      modifies this`Added, serializer
      ensures Valid() && Added == old(Added) + FrameOf(m)
    {
      Regroup(Before + Current(), serializer.Contents(), FrameOf(m));
      serializer.AddMessage(m);
      Added := Added + FrameOf(m);
    }

    method Finish()
      requires Valid()
      modifies this`finished
      ensures Valid() && finished
    {
      finished := true;
    }

    /** Replaces a used-up buffer by the serializer's next one; without one, the stream is at the
        end of what was added. */
    method FetchBuffer() returns (ok: bool)
      requires Valid() && position == currentBufferSize
      modifies this`currentBuffer, this`currentBufferSize, this`position, this`Before
      modifies serializer, serializer.delimiter
      ensures Valid() && position == 0
      ensures ok <==> bytesRead < |Added|
      ensures ok ==> currentBufferSize > 0
      ensures !ok ==> currentBufferSize == 0
    {
      ghost var passed, more := Before + Current(), serializer.Contents();
      var buffer;
      ok, buffer := serializer.Next();
      position := 0;
      Before := passed;
      if ok {
        currentBuffer := buffer;
        currentBufferSize := if buffer.Delimiter? then HEADER_SIZE else |buffer.bytes|;
        assert Current() == serializer.BytesOf(buffer);
        Regroup(passed, Current(), serializer.Contents());
      } else {
        currentBufferSize := 0;
        assert Current() == [] && more == [] && serializer.Contents() == [];
        assert passed + [] == passed;
      }
    }

    /** The bytes from the cursor to the end of the current buffer; with nothing added beyond the
        cursor, no bytes and whether more may come. */
    method Next() returns (ok: bool, data: Bytes)
      requires Valid()
      modifies this`currentBuffer, this`currentBufferSize, this`position, this`bytesRead, this`Before
      modifies serializer, serializer.delimiter
      ensures Valid()
      ensures old(bytesRead) < |Added| ==> ok && data != []
      ensures old(bytesRead) == |Added| ==> ok == !finished && data == []
      ensures bytesRead == old(bytesRead) + |data| && data == Added[old(bytesRead)..bytesRead]
    {
      if position >= currentBufferSize {
        var fetched := FetchBuffer();
        if !fetched {
          return !finished, [];
        }
      }
      data := TakeRest();
      ok := true;
    }

    /** The rest of the current buffer. */
    method TakeRest() returns (data: Bytes)
      requires Valid() && position < currentBufferSize
      modifies this`position, this`bytesRead
      ensures Valid() && data != []
      ensures bytesRead == old(bytesRead) + |data| <= |Added| && data == Added[old(bytesRead)..bytesRead]
    {
      MiddleSlice(Before, Current(), serializer.Contents(), position);
      data := if currentBuffer.Delimiter? then serializer.delimiter[position..currentBufferSize]
              else currentBuffer.bytes[position..currentBufferSize];
      assert data == Current()[position..];
      bytesRead := bytesRead + |data|;
      position := currentBufferSize;
    }

    /** Moves the cursor back within the current buffer; anything else is ignored. */
    method BackUp(count: int)
      requires Valid()
      modifies this`position, this`bytesRead
      ensures Valid()
      ensures if 0 < count <= old(position)
              then position == old(position) - count && bytesRead == old(bytesRead) - count
              else position == old(position) && bytesRead == old(bytesRead)
    {
      if 0 < count && count <= position {
        position := position - count;
        bytesRead := bytesRead - count;
      }
    }

    /** Moves the cursor count bytes on, exactly when that many are available; otherwise to the
        end of what was added. */
    method Skip(count: int) returns (ok: bool)
      requires Valid()
      modifies this`currentBuffer, this`currentBufferSize, this`position, this`bytesRead, this`Before
      modifies serializer, serializer.delimiter
      ensures Valid()
      ensures ok <==> 0 <= count <= |Added| - old(bytesRead)
      ensures bytesRead == if count < 0 then old(bytesRead) else if ok then old(bytesRead) + count else |Added|
    {
      if count < 0 {
        return false;
      }
      var left := count;
      while position + left > currentBufferSize
        invariant Valid() && 0 <= left && bytesRead + left == old(bytesRead) + count
        decreases left, if position == currentBufferSize then 1 else 0
      {
        var delta := currentBufferSize - position;
        AdvanceWithinBuffer(delta);
        left := left - delta;
        var fetched := FetchBuffer();
        if !fetched {
          return false;
        }
      }
      AdvanceWithinBuffer(left);
      return true;
    }

    method AdvanceWithinBuffer(n: nat)
      requires Valid() && position + n <= currentBufferSize
      modifies this`position, this`bytesRead
      ensures Valid() && position == old(position) + n && bytesRead == old(bytesRead) + n
    {
      position := position + n;
      bytesRead := bytesRead + n;
    }

    /** ByteCount and BytesAvailable add up to everything that was added. */
    method BytesAvailable() returns (n: int)
      requires Valid()
      ensures n == |Added| - bytesRead
    {
      n := (currentBufferSize - position) + serializer.byteCount;
    }
  }

  // ---------- from messages to chunks and back

  function Payloads(ms: seq<Message>): (r: seq<Bytes>)
    ensures |r| == |ms| && forall i :: 0 <= i < |ms| ==> r[i] == Flatten(ms[i].slices)
  {
    seq(|ms|, i requires 0 <= i < |ms| => Flatten(ms[i].slices))
  }

  lemma {:induction false} UncompressedFrames(ms: seq<Message>)
    requires forall i :: 0 <= i < |ms| ==> !ms[i].compressed
    ensures FramesOf(ms) == FrameAll(Payloads(ms))
  {
    if ms != [] {
      UncompressedFrames(ms[1..]);
      assert Payloads(ms)[1..] == Payloads(ms[1..]);
    }
  }

  lemma SentIsReadBack(ms: seq<Message>, chunks: Slices)
    requires forall i :: 0 <= i < |ms| ==> !ms[i].compressed && |Flatten(ms[i].slices)| < TWO_32
    requires Flatten(chunks) == FramesOf(ms)
    ensures Feed([], chunks) == (Payloads(ms), [])
  {
    UncompressedFrames(ms);
    AnyCutIsReadBack(Payloads(ms), chunks);
  }

  lemma FramesOfLast(ms: seq<Message>)
    requires ms != []
    ensures FramesOf(ms) == FramesOf(ms[..|ms| - 1]) + FrameOf(ms[|ms| - 1])
  {
    assert ms == ms[..|ms| - 1] + [ms[|ms| - 1]];
    FramesOfAppend(ms[..|ms| - 1], ms[|ms| - 1]);
  }

  method AddAll(stream: GrpcZeroCopyInputStream, ms: seq<Message>)
    requires stream.Valid() && stream.Added == []
    modifies stream`Added, stream.serializer
    ensures stream.Valid() && stream.Added == FramesOf(ms)
  {
    if ms != [] {
      var front, last := ms[..|ms| - 1], ms[|ms| - 1];
      AddAll(stream, front);
      stream.AddMessage(last);
      FramesOfLast(ms);
    }
  }

  /** Messages put through the stream and read back chunk by chunk arrive as they were sent. */
  method Transmit(ms: seq<Message>) returns (chunks: Slices)
    requires forall i :: 0 <= i < |ms| ==> !ms[i].compressed && |Flatten(ms[i].slices)| < TWO_32
    ensures Feed([], chunks) == (Payloads(ms), [])
  {
    var stream := new GrpcZeroCopyInputStream();
    AddAll(stream, ms);
    chunks := ReadChunks(stream);
    SentIsReadBack(ms, chunks);
  }

  method ReadChunks(stream: GrpcZeroCopyInputStream) returns (chunks: Slices)
    requires stream.Valid() && stream.bytesRead == 0
    modifies stream, stream.serializer, stream.serializer.delimiter
    ensures Flatten(chunks) == old(stream.Added)
  {
    chunks := [];
    ghost var all := stream.Added;
    while true
      invariant stream.Valid() && stream.Added == all && Flatten(chunks) == all[..stream.bytesRead]
      decreases |all| - stream.bytesRead
    {
      ghost var before := stream.bytesRead;
      var ok, data := stream.Next();
      if data == [] {
        assert all[..|all|] == all;
        return;
      }
      FlattenAppend(chunks, [data]);
      FlattenOne(data);
      assert all[..before] + all[before..stream.bytesRead] == all[..stream.bytesRead];
      chunks := chunks + [data];
    }
  }
}
