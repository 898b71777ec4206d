/** Reading messages out of arbitrarily cut slices, and writing one into a buffer:
    TryReadDownstreamMessage of grpc_server_call.cc and ConvertResponseMessage of
    grpc_passthrough_server_call.cc. */
module Deframer {
  import opened Wrappers
  import opened Framing

  /** The slices without their first n bytes. */
  function Trimmed(slices: Slices, n: nat): Slices
    requires n <= |Flatten(slices)|
    decreases |slices|
  {
    if n == 0 then slices
    else if |slices[0]| <= n then Trimmed(slices[1..], n - |slices[0]|)
    else [slices[0][n..]] + slices[1..]
  }

  lemma {:induction false} TrimmedBytes(slices: Slices, n: nat)
    requires n <= |Flatten(slices)|
    ensures Flatten(Trimmed(slices, n)) == Flatten(slices)[n..]
    decreases |slices|
  {
    if n > 0 {
      if |slices[0]| <= n {
        TrimmedBytes(slices[1..], n - |slices[0]|);
      } else {
        assert ([slices[0][n..]] + slices[1..])[1..] == slices[1..];
      }
    }
  }

  /** The slices cut in two after n bytes; empty slices at the cut stay in the second half. */
  function Cut(slices: Slices, n: nat): (Slices, Slices)
    requires n <= |Flatten(slices)|
    decreases |slices|
  {
    if n == 0 then ([], slices)
    else if |slices[0]| <= n then
      var (front, back) := Cut(slices[1..], n - |slices[0]|);
      ([slices[0]] + front, back)
    else ([slices[0][..n]], [slices[0][n..]] + slices[1..])
  }

  lemma {:induction false} CutBytes(slices: Slices, n: nat)
    requires n <= |Flatten(slices)|
    ensures Flatten(Cut(slices, n).0) == Flatten(slices)[..n]
    ensures Flatten(Cut(slices, n).1) == Flatten(slices)[n..]
    decreases |slices|
  {
    if n > 0 {
      if |slices[0]| <= n {
        CutBytes(slices[1..], n - |slices[0]|);
        var (front, back) := Cut(slices[1..], n - |slices[0]|);
        assert ([slices[0]] + front)[1..] == front;
      } else {
        FlattenOne(slices[0][..n]);
        assert ([slices[0][n..]] + slices[1..])[1..] == slices[1..];
      }
    }
  }

  /** The first message of the slices, if it is complete, and the slices left over. */
  function TakeMessage(slices: Slices): Option<(Slices, Slices)> {
    var b := Flatten(slices);
    if Deframe(b).None? then None
    else
      TrimmedBytes(slices, HEADER_SIZE);
      Some(Cut(Trimmed(slices, HEADER_SIZE), FromBigEndian(b[1..5])))
  }

  /** On slices as on bytes. */
  lemma TakeMessageBytes(slices: Slices)
    ensures TakeMessage(slices).Some? <==> Deframe(Flatten(slices)).Some?
    ensures TakeMessage(slices).Some? ==>
              Deframe(Flatten(slices)) ==
                Some((Flatten(TakeMessage(slices).value.0), Flatten(TakeMessage(slices).value.1)))
  {
    var b := Flatten(slices);
    if Deframe(b).Some? {
      var n := FromBigEndian(b[1..5]);
      TrimmedBytes(slices, HEADER_SIZE);
      CutBytes(Trimmed(slices, HEADER_SIZE), n);
      assert b[HEADER_SIZE..][..n] == b[HEADER_SIZE..HEADER_SIZE + n];
      assert b[HEADER_SIZE..][n..] == b[HEADER_SIZE + n..];
    }
  }

  /** The cut, when the first it slices are known to be in front of it. */
  ghost function CutFrom(slices: Slices, it: nat, m: nat): (Slices, Slices)
    requires it <= |slices| && m <= |Flatten(slices[it..])|
  {
    var (front, back) := Cut(slices[it..], m);
    (slices[..it] + front, back)
  }

  lemma CutFromNext(slices: Slices, it: nat, m: nat)
    requires it < |slices| && |slices[it]| <= m <= |Flatten(slices[it..])| && m > 0
    ensures m - |slices[it]| <= |Flatten(slices[it + 1..])|
    ensures CutFrom(slices, it, m) == CutFrom(slices, it + 1, m - |slices[it]|)
  {
    assert slices[it..][1..] == slices[it + 1..];
    var front := Cut(slices[it + 1..], m - |slices[it]|).0;
    assert slices[..it] + ([slices[it]] + front) == slices[..it + 1] + front;
  }

  // ---------- the loops

  /** GetByte: the byte at an offset, 0 past the end. */
  method GetByte(slices: Slices, offset: nat) returns (b: byte)
    ensures b == if offset < |Flatten(slices)| then Flatten(slices)[offset] else 0
  {
    var left: nat, rest := offset, slices;
    while rest != []
      invariant offset < |Flatten(slices)| <==> left < |Flatten(rest)|
      invariant left < |Flatten(rest)| ==> Flatten(slices)[offset] == Flatten(rest)[left]
      decreases |rest|
    {
      if left < |rest[0]| {
        return rest[0][left];
      }
      left := left - |rest[0]|;
      rest := rest[1..];
    }
    return 0;
  }

  class DownstreamSlices {
    var slices: Slices

    constructor (s: Slices)
      ensures slices == s
    {
      slices := s;
    }

    method TrimFront(n: nat)
      requires n <= |Flatten(slices)|
      modifies this
      ensures slices == Trimmed(old(slices), n)
    {
      var count: nat := n;
      while count > 0
        invariant count <= |Flatten(slices)|
        invariant Trimmed(slices, count) == Trimmed(old(slices), n)
        decreases |slices|
      {
        var head := slices[0];
        if |head| <= count {
          count := count - |head|;
          slices := slices[1..];
        } else {
          ghost var tail := slices[1..];
          slices := slices[0 := head[count..]];
          assert slices == [head[count..]] + tail;
          return;
        }
      }
    }

    /** How many slices the first n bytes fill, and how many bytes that is. */
    method WholeSlices(n: nat) returns (it: nat, prefix: nat)
      requires n <= |Flatten(slices)|
      ensures it <= |slices| && prefix <= n && n - prefix <= |Flatten(slices[it..])|
      ensures prefix < n ==> it < |slices| && |slices[it]| > n - prefix
      ensures Cut(slices, n) == CutFrom(slices, it, n - prefix)
    {
      it, prefix := 0, 0;
      assert slices[0..] == slices && slices[..0] + Cut(slices, n).0 == Cut(slices, n).0;
      while prefix < n && |slices[it]| <= n - prefix
        invariant it <= |slices| && prefix <= n && n - prefix <= |Flatten(slices[it..])|
        invariant Cut(slices, n) == CutFrom(slices, it, n - prefix)
        decreases |slices| - it
      {
        CutFromNext(slices, it, n - prefix);
        prefix := prefix + |slices[it]|;
        it := it + 1;
      }
    }

    /** Takes the first n bytes out of the slices; a slice that is only partly needed is split,
        its remainder staying in front. */
    method TakeFront(n: nat) returns (msg: Slices)
      requires n <= |Flatten(slices)|
      modifies this
      ensures (msg, slices) == Cut(old(slices), n)
    {
      var it, prefix := WholeSlices(n);
      if prefix < n {
        var remainder := slices[it][n - prefix..];
        msg := slices[..it] + [slices[it][..n - prefix]];
        assert slices[it..][1..] == slices[it + 1..];
        slices := slices[it := remainder];
        assert slices[it..] == [remainder] + slices[it + 1..];
      } else {
        assert slices[..it] + [] == slices[..it];
        msg := slices[..it];
      }
      slices := slices[it..];
    }

    method TryReadDownstreamMessage() returns (msg: Option<Slices>)
      modifies this
      ensures msg.None? <==> TakeMessage(old(slices)).None?
      ensures msg.None? ==> slices == old(slices)
      ensures msg.Some? ==> TakeMessage(old(slices)) == Some((msg.value, slices))
    {
      ghost var b := Flatten(slices);
      var length := TotalLength(slices);
      if length < HEADER_SIZE {
        return None;
      }
      var n := ReadLength(slices);
      if length - HEADER_SIZE < n {
        return None;
      }
      TrimmedBytes(slices, HEADER_SIZE);
      TrimFront(HEADER_SIZE);
      var taken := TakeFront(n);
      msg := Some(taken);
    }
  }

  method TotalLength(slices: Slices) returns (n: nat)
    ensures n == |Flatten(slices)|
  {
    n := 0;
    for i := 0 to |slices|
      invariant n + |Flatten(slices[i..])| == |Flatten(slices)|
    {
      assert slices[i..][1..] == slices[i + 1..];
      n := n + |slices[i]|;
    }
  }

  /** The length field, assembled byte by byte. */
  method ReadLength(slices: Slices) returns (n: nat)
    requires |Flatten(slices)| >= HEADER_SIZE
    ensures n == FromBigEndian(Flatten(slices)[1..5])
  {
    n := 0;
    ghost var field := Flatten(slices)[1..5];
    var b1 := GetByte(slices, 1);
    var b2 := GetByte(slices, 2);
    var b3 := GetByte(slices, 3);
    var b4 := GetByte(slices, 4);
    assert field == [b1, b2, b3, b4];
    n := ((b1 as int * 256 + b2 as int) * 256 + b3 as int) * 256 + b4 as int;
  }

  /** Takes out every complete message. */
  method DrainMessages(d: DownstreamSlices) returns (msgs: seq<Bytes>)
    modifies d
    ensures (msgs, Flatten(d.slices)) == DeframeAll(Flatten(old(d.slices)))
  {
    msgs := [];
    assert [] + DeframeAll(Flatten(d.slices)).0 == DeframeAll(Flatten(d.slices)).0;
    while true
      invariant DeframeAll(Flatten(old(d.slices))) ==
                (msgs + DeframeAll(Flatten(d.slices)).0, DeframeAll(Flatten(d.slices)).1)
      decreases |Flatten(d.slices)|
    {
      TakeMessageBytes(d.slices);
      var msg := d.TryReadDownstreamMessage();
      if msg.None? {
        assert msgs + [] == msgs;
        return;
      }
      ghost var more := DeframeAll(Flatten(d.slices)).0;
      assert msgs + ([Flatten(msg.value)] + more) == msgs + [Flatten(msg.value)] + more;
      msgs := msgs + [Flatten(msg.value)];
    }
  }

  // ---------- the frame writer

  /** ConvertResponseMessage: flag, length and slices copied into one buffer. */
  method ConvertResponseMessage(compressed: bool, msg: Slices) returns (out: Bytes)
    ensures out == Frame(compressed, Flatten(msg))
  {
    var length := TotalLength(msg);
    var buffer := new byte[HEADER_SIZE + length](_ => 0);
    WriteHeader(buffer, compressed, length);
    var last := HEADER_SIZE;
    ghost var header := buffer[..HEADER_SIZE];
    for k := 0 to |msg|
      invariant HEADER_SIZE <= last <= buffer.Length && last == HEADER_SIZE + |Flatten(msg[..k])|
      invariant |Flatten(msg[..k])| + |Flatten(msg[k..])| == length
      invariant buffer[..last] == header + Flatten(msg[..k])
    {
      assert msg[k..][1..] == msg[k + 1..];
      assert msg[..k + 1] == msg[..k] + [msg[k]];
      FlattenAppend(msg[..k], [msg[k]]);
      FlattenOne(msg[k]);
      last := CopySlice(buffer, last, msg[k]);
    }
    assert msg[..|msg|] == msg && buffer[..buffer.Length] == buffer[..];
    out := buffer[..];
  }

  method WriteHeader(buffer: array<byte>, compressed: bool, length: nat)
    requires buffer.Length >= HEADER_SIZE
    modifies buffer
    ensures buffer[..HEADER_SIZE] == [if compressed then 1 else 0] + BigEndian(length % TWO_32)
  {
    LowBytes(length);
    buffer[0] := if compressed then 1 else 0;
    buffer[4] := length % 256;
    var q1 := length / 256;
    buffer[3] := q1 % 256;
    var q2 := q1 / 256;
    buffer[2] := q2 % 256;
    var q3 := q2 / 256;
    buffer[1] := q3 % 256;
    assert buffer[..HEADER_SIZE] == [buffer[0], buffer[1], buffer[2], buffer[3], buffer[4]];
  }

  lemma Digit(n: nat, q: nat, r: nat)
    requires n == 256 * q + r && r < 256
    ensures n / 256 == q && n % 256 == r
  {
  }

  /** Shifting and masking the whole length gives the bytes of its low 32 bits. */
  lemma LowBytes(n: nat)
    ensures BigEndian(n % TWO_32) == [n / 256 / 256 / 256 % 256, n / 256 / 256 % 256, n / 256 % 256, n % 256]
  {
    var k, r := n / TWO_32, n % TWO_32;
    var r1 := r / 256;
    var r2 := r1 / 256;
    Digit(n, k * 0x100_0000 + r1, r % 256);
    Digit(k * 0x100_0000 + r1, k * 0x1_0000 + r2, r1 % 256);
    Digit(k * 0x1_0000 + r2, k * 0x100 + r2 / 256, r2 % 256);
    Digit(k * 0x100 + r2 / 256, k, r2 / 256);
  }

  /** ngx_memcpy of one slice. */
  method CopySlice(buffer: array<byte>, last: nat, slice: Bytes) returns (end: nat)
    requires last + |slice| <= buffer.Length
    modifies buffer
    ensures end == last + |slice|
    ensures buffer[..end] == old(buffer[..last]) + slice
  {
    for i := 0 to |slice|
      invariant buffer[..last + i] == old(buffer[..last]) + slice[..i]
    {
      buffer[last + i] := slice[i];
      assert buffer[..last + i + 1] == buffer[..last + i] + [slice[i]];
    }
    end := last + |slice|;
  }
}
