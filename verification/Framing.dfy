/** The Length-Prefixed-Message of the gRPC over HTTP/2 specification: a compressed flag, a
    four-byte big-endian length and the message. */
module Framing {
  import opened Wrappers

  type byte = x: int | 0 <= x < 256
  type Bytes = seq<byte>
  type Slices = seq<Bytes>

  const TWO_32 := 0x1_0000_0000
  const HEADER_SIZE := 5

  function Flatten(slices: Slices): Bytes {
    if slices == [] then [] else slices[0] + Flatten(slices[1..])
  }

  lemma {:induction false} FlattenAppend(a: Slices, b: Slices)
    ensures Flatten(a + b) == Flatten(a) + Flatten(b)
  {
    if a == [] {
      assert a + b == b;
    } else {
      assert (a + b)[1..] == a[1..] + b;
      FlattenAppend(a[1..], b);
    }
  }

  lemma FlattenOne(a: Bytes)
    ensures Flatten([a]) == a
  {
    assert [a][1..] == [];
  }

  // ---------- lengths

  function BigEndian(n: nat): (b: Bytes)
    requires n < TWO_32
    ensures |b| == 4
  {
    var q1 := n / 256;
    var q2 := q1 / 256;
    [q2 / 256, q2 % 256, q1 % 256, n % 256]
  }

  function FromBigEndian(b: Bytes): (n: nat)
    requires |b| == 4
    ensures n < TWO_32
  {
    b[0] as int * 0x100_0000 + b[1] as int * 0x1_0000 + b[2] as int * 0x100 + b[3] as int
  }

  lemma BigEndianInverts(n: nat)
    requires n < TWO_32
    ensures FromBigEndian(BigEndian(n)) == n
  {
    var q1 := n / 256;
    var q2 := q1 / 256;
    assert n == 256 * q1 + n % 256 && q1 == 256 * q2 + q1 % 256 && q2 == 256 * (q2 / 256) + q2 % 256;
  }

  // ---------- frames

  /** A framed message: the length field keeps the low 32 bits of the length. */
  function Frame(compressed: bool, msg: Bytes): Bytes {
    [if compressed then 1 else 0] + BigEndian(|msg| % TWO_32) + msg
  }

  /** The first frame of a byte stream, if it is complete: its message and what follows. */
  function Deframe(b: Bytes): (r: Option<(Bytes, Bytes)>)
    ensures r.Some? ==> |r.value.1| < |b|
  {
    if |b| < HEADER_SIZE then None
    else
      var n := FromBigEndian(b[1..5]);
      if |b| - HEADER_SIZE < n then None
      else Some((b[HEADER_SIZE..HEADER_SIZE + n], b[HEADER_SIZE + n..]))
  }

  function DeframeAll(b: Bytes): (seq<Bytes>, Bytes)
    decreases |b|
  {
    var first := Deframe(b);
    if first.None? then ([], b)
    else
      var (msgs, rest) := DeframeAll(first.value.1);
      ([first.value.0] + msgs, rest)
  }

  function FrameAll(msgs: seq<Bytes>): Bytes {
    if msgs == [] then [] else Frame(false, msgs[0]) + FrameAll(msgs[1..])
  }

  lemma FrameParts(flag: byte, length: Bytes, msg: Bytes, rest: Bytes)
    requires |length| == 4
    ensures var b := [flag] + length + msg + rest;
            b[1..5] == length && b[5..5 + |msg|] == msg && b[5 + |msg|..] == rest
  {
  }

  lemma DeframeParts(flag: byte, length: Bytes, msg: Bytes, rest: Bytes)
    requires |length| == 4 && FromBigEndian(length) == |msg|
    ensures Deframe([flag] + length + msg + rest) == Some((msg, rest))
  {
    FrameParts(flag, length, msg, rest);
  }

  lemma DeframeInvertsFrame(compressed: bool, msg: Bytes, rest: Bytes)
    requires |msg| < TWO_32
    ensures Deframe(Frame(compressed, msg) + rest) == Some((msg, rest))
  {
    assert |msg| % TWO_32 == |msg|;
    BigEndianInverts(|msg|);
    DeframeParts(if compressed then 1 else 0, BigEndian(|msg|), msg, rest);
  }

  /** A single frame is read back exactly when its length fits the length field. */
  lemma FrameFits(compressed: bool, msg: Bytes)
    ensures Deframe(Frame(compressed, msg)) == Some((msg, [])) <==> |msg| < TWO_32
  {
    var b := Frame(compressed, msg);
    if |msg| < TWO_32 {
      DeframeInvertsFrame(compressed, msg, []);
      assert b + [] == b;
    } else {
      FrameParts(if compressed then 1 else 0, BigEndian(|msg| % TWO_32), msg, []);
      assert b + [] == b;
      BigEndianInverts(|msg| % TWO_32);
    }
  }

  /** A message of 2^32 bytes is framed with length 0: it is read as an empty message, and its own
      bytes as the frames that follow. */
  lemma LongMessageIsLost()
    ensures var msg: Bytes := seq(TWO_32, _ => 0);
            |msg| == TWO_32 && Deframe(Frame(false, msg)) == Some(([], msg))
  {
    var msg: Bytes := seq(TWO_32, _ => 0);
    BigEndianInverts(0);
    FrameParts(0, BigEndian(0), [], msg);
    assert [0] + BigEndian(0) + [] + msg == Frame(false, msg);
  }

  lemma Regroup(a: Bytes, b: Bytes, c: Bytes)
    ensures a + b + c == a + (b + c)
  {
  }

  lemma DeframeAllStep(msg: Bytes, more: Bytes)
    requires |msg| < TWO_32
    ensures DeframeAll(Frame(false, msg) + more) == ([msg] + DeframeAll(more).0, DeframeAll(more).1)
  {
    DeframeInvertsFrame(false, msg, more);
  }

  /** Deframing inverts framing, and stops exactly at the first incomplete frame. */
  lemma {:induction false} DeframeAllInvertsFrameAll(msgs: seq<Bytes>, tail: Bytes)
    requires forall i :: 0 <= i < |msgs| ==> |msgs[i]| < TWO_32
    requires Deframe(tail).None?
    ensures DeframeAll(FrameAll(msgs) + tail) == (msgs, tail)
  {
    if msgs == [] {
      assert [] + tail == tail;
    } else {
      Regroup(Frame(false, msgs[0]), FrameAll(msgs[1..]), tail);
      DeframeAllStep(msgs[0], FrameAll(msgs[1..]) + tail);
      DeframeAllInvertsFrameAll(msgs[1..], tail);
      assert msgs == [msgs[0]] + msgs[1..];
    }
  }

  // ---------- independence of chunking

  lemma DeframePrefix(a: Bytes, b: Bytes)
    requires Deframe(a).Some?
    ensures Deframe(a + b) == Some((Deframe(a).value.0, Deframe(a).value.1 + b))
  {
    assert (a + b)[1..5] == a[1..5];
    var n := FromBigEndian(a[1..5]);
    assert (a + b)[HEADER_SIZE..HEADER_SIZE + n] == a[HEADER_SIZE..HEADER_SIZE + n];
    assert (a + b)[HEADER_SIZE + n..] == a[HEADER_SIZE + n..] + b;
  }

  /** Bytes that arrive later change nothing about the messages already read. */
  lemma {:induction false} DeframeAllResumes(a: Bytes, b: Bytes)
    ensures var (early, left) := DeframeAll(a);
            var (late, rest) := DeframeAll(left + b);
            DeframeAll(a + b) == (early + late, rest)
    decreases |a|
  {
    if Deframe(a).Some? {
      DeframePrefix(a, b);
      var (msg, more) := Deframe(a).value;
      DeframeAllResumes(more, b);
      var (early, left) := DeframeAll(more);
      var (late, rest) := DeframeAll(left + b);
      assert [msg] + (early + late) == [msg] + early + late;
    } else {
      var (late, rest) := DeframeAll(a + b);
      assert [] + late == late;
    }
  }

  /** Chunks arriving one after the other, every complete message being taken out in between. */
  function Feed(left: Bytes, chunks: Slices): (seq<Bytes>, Bytes)
    decreases |chunks|
  {
    var (msgs, rest) := DeframeAll(left);
    if chunks == [] then (msgs, rest)
    else
      var (more, end) := Feed(rest + chunks[0], chunks[1..]);
      (msgs + more, end)
  }

  lemma {:induction false} ChunkingDoesNotMatter(left: Bytes, chunks: Slices)
    ensures Feed(left, chunks) == DeframeAll(left + Flatten(chunks))
    decreases |chunks|
  {
    if chunks == [] {
      assert left + [] == left;
    } else {
      var (msgs, rest) := DeframeAll(left);
      ChunkingDoesNotMatter(rest + chunks[0], chunks[1..]);
      assert left + Flatten(chunks) == left + (chunks[0] + Flatten(chunks[1..]));
      assert rest + chunks[0] + Flatten(chunks[1..]) == rest + (chunks[0] + Flatten(chunks[1..]));
      DeframeAllResumes(left, chunks[0] + Flatten(chunks[1..]));
    }
  }

  /** However framed messages are cut into chunks, they are all read back in order. */
  lemma AnyCutIsReadBack(msgs: seq<Bytes>, chunks: Slices)
    requires forall i :: 0 <= i < |msgs| ==> |msgs[i]| < TWO_32
    requires Flatten(chunks) == FrameAll(msgs)
    ensures Feed([], chunks) == (msgs, [])
  {
    ChunkingDoesNotMatter([], chunks);
    assert [] + Flatten(chunks) == FrameAll(msgs) + [];
    DeframeAllInvertsFrameAll(msgs, []);
  }
}
