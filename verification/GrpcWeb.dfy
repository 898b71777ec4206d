/** The trailer frame that ends a gRPC-Web response, as in grpc_web_finish.cc. */
module GrpcWeb {
  import opened Wrappers
  import opened Framing
  import opened Decimal

  const TRAILER_FLAG: byte := 128

  datatype Trailer = Trailer(name: Bytes, value: Bytes)

  function Ascii(s: string): (b: Bytes)
    ensures |b| == |s|
  {
    seq(|s|, i requires 0 <= i < |s| => s[i] as int % 256)
  }

  function Line(name: Bytes, value: Bytes): Bytes {
    name + Ascii(": ") + value + Ascii("\r\n")
  }

  function StatusLine(code: nat): Bytes {
    Line(Ascii("grpc-status"), Ascii(Dec(code)))
  }

  function TrailerLines(trailers: seq<Trailer>): (r: Slices)
    ensures |r| == |trailers|
    ensures forall i :: 0 <= i < |r| ==> r[i] == Line(trailers[i].name, trailers[i].value)
  {
    seq(|trailers|, i requires 0 <= i < |trailers| => Line(trailers[i].name, trailers[i].value))
  }

  /** There is no message line for an empty message. */
  function MessageLines(message: Bytes): Slices {
    if message == [] then [] else [Line(Ascii("grpc-message"), message)]
  }

  /** The lines of the trailer block. */
  function Lines(code: nat, message: Bytes, trailers: seq<Trailer>): Slices {
    [StatusLine(code)] + MessageLines(message) + TrailerLines(trailers)
  }

  lemma LinesGrow(trailers: seq<Trailer>, k: nat, line: Bytes)
    requires k < |trailers| && line == Line(trailers[k].name, trailers[k].value)
    ensures TrailerLines(trailers[..k + 1]) == TrailerLines(trailers[..k]) + [line]
    ensures |Flatten(TrailerLines(trailers[..k + 1]))| == |Flatten(TrailerLines(trailers[..k]))| + |line|
  {
    var lines := TrailerLines(trailers[..k]);
    assert TrailerLines(trailers[..k + 1]) == lines + [line];
    FlattenAppend(lines, [line]);
    FlattenOne(line);
  }

  lemma LinesLength(code: nat, message: Bytes, trailers: seq<Trailer>)
    ensures |Flatten(Lines(code, message, trailers))| ==
            |StatusLine(code)| + |Flatten(MessageLines(message))| + |Flatten(TrailerLines(trailers))|
  {
    FlattenAppend([StatusLine(code)] + MessageLines(message), TrailerLines(trailers));
    FlattenAppend([StatusLine(code)], MessageLines(message));
    FlattenOne(StatusLine(code));
  }

  function TrailerHeader(length: nat): Bytes {
    [TRAILER_FLAG] + BigEndian(length % TWO_32)
  }

  /** A trailer frame is read back whole exactly when its length fits 32 bits. */
  lemma TrailerFrameFits(block: Bytes, rest: Bytes)
    ensures FromBigEndian(TrailerHeader(|block|)[1..]) == |block| <==> |block| < TWO_32
    ensures |block| < TWO_32 ==> Deframe(TrailerHeader(|block|) + block + rest) == Some((block, rest))
  {
    var n := |block| % TWO_32;
    BigEndianInverts(n);
    assert TrailerHeader(|block|)[1..] == BigEndian(n);
    if |block| < TWO_32 {
      DeframeParts(TRAILER_FLAG, BigEndian(n), block, rest);
    }
  }

  /** What a finished response sends is one frame around all of its lines. */
  lemma FinishIsReadBack(code: nat, message: Bytes, trailers: seq<Trailer>, rest: Bytes)
    requires |Flatten(Lines(code, message, trailers))| < TWO_32
    ensures var lines := Lines(code, message, trailers);
            Deframe(Flatten([TrailerHeader(|Flatten(lines)|)] + lines) + rest) == Some((Flatten(lines), rest))
  {
    var lines := Lines(code, message, trailers);
    var header := TrailerHeader(|Flatten(lines)|);
    FlattenAppend([header], lines);
    FlattenOne(header);
    TrailerFrameFits(Flatten(lines), rest);
  }

  // ---------- chains

  class Link {
    var buf: Option<Bytes>
    var next: Link?
    var lastBuf: bool

    constructor (buf: Option<Bytes>)
      ensures this.buf == buf && next == null && !lastBuf
    {
      this.buf, next, lastBuf := buf, null, false;
    }
  }

  ghost predicate Distinct(links: seq<Link>) {
    forall i, j :: 0 <= i < j < |links| ==> links[i] != links[j]
  }

  /** The links form a chain that ends. */
  ghost predicate Linked(links: seq<Link>)
    reads links
  {
    && links != [] && Distinct(links)
    && (forall i, j :: 0 <= i < j < |links| && j == i + 1 ==> links[i].next == links[j])
    && links[|links| - 1].next == null
  }

  lemma NextOf(links: seq<Link>, i: nat)
    requires Linked(links) && i < |links|
    ensures links[i].next == if i + 1 < |links| then links[i + 1] else null
  {
    if i + 1 < |links| {
      assert links[i].next == links[i + 1];
    }
  }

  /** The links hold these buffers, none of them marked as the last. */
  ghost predicate Holds(links: seq<Link>, slices: Slices)
    reads links
  {
    |links| == |slices| && forall i :: 0 <= i < |links| ==> links[i].buf == Some(slices[i]) && !links[i].lastBuf
  }

  /** Puts a buffer at the end of a chain: into an empty last link, or into a new one. */
  method AppendToEnd(chain: Link, buffer: Bytes, ghost links: seq<Link>) returns (end: Link)
    requires Linked(links) && chain in links
    modifies links[|links| - 1]
    ensures var last := links[|links| - 1];
            && end.buf == Some(buffer) && end.next == null
            && (old(last.buf).None? ==> end == last && last.lastBuf == old(last.lastBuf))
            && (old(last.buf).Some? ==>
                  fresh(end) && !end.lastBuf && last.next == end
                  && last.buf == old(last.buf) && last.lastBuf == old(last.lastBuf))
  {
    end := chain;
    ghost var i :| 0 <= i < |links| && links[i] == chain;
    NextOf(links, i);
    while end.next != null
      invariant 0 <= i < |links| && links[i] == end
      invariant Linked(links) && unchanged(links[|links| - 1])
      invariant end.next == if i + 1 < |links| then links[i + 1] else null
      decreases |links| - i
    {
      end := end.next;
      i := i + 1;
      NextOf(links, i);
    }
    if end.buf.None? {
      end.buf := Some(buffer);
    } else {
      var c := new Link(Some(buffer));
      end.next := c;
      end := c;
    }
  }

  /** A chain with these buffers; with no buffers yet, one empty link. */
  ghost predicate Filled(links: seq<Link>, slices: Slices)
    reads links
  {
    && Linked(links)
    && if slices == [] then |links| == 1 && links[0].buf.None? && !links[0].lastBuf else Holds(links, slices)
  }

  method AppendLine(last: Link, line: Bytes, ghost links: seq<Link>, ghost slices: Slices)
    returns (last': Link, ghost links': seq<Link>)
    requires Filled(links, slices) && links[|links| - 1] == last
    modifies last
    ensures Filled(links', slices + [line]) && links'[|links'| - 1] == last'
    ensures if slices == [] then links' == links else links' == links + [last'] && fresh(last')
  {
    last' := AppendToEnd(last, line, links);
    links' := if slices == [] then links else links + [last'];
  }

  /** Fills a chain, at first one empty link, with a line for each trailer. */
  method EncodesGrpcCustomTrailers(trailers: seq<Trailer>, output: Link, length: nat)
    returns (last: Link, total: nat, ghost links: seq<Link>)
    requires trailers != [] && Filled([output], [])
    modifies output
    ensures Filled(links, TrailerLines(trailers)) && links[0] == output && links[|links| - 1] == last
    ensures forall i :: 1 <= i < |links| ==> fresh(links[i])
    ensures total == length + |Flatten(TrailerLines(trailers))|
  {
    last, total, links := output, length, [output];
    for k := 0 to |trailers|
      invariant Filled(links, TrailerLines(trailers[..k])) && links[0] == output && links[|links| - 1] == last
      invariant forall i :: 1 <= i < |links| ==> fresh(links[i])
      invariant total == length + |Flatten(TrailerLines(trailers[..k]))|
    {
      var line := Line(trailers[k].name, trailers[k].value);
      LinesGrow(trailers, k, line);
      last, links := AppendLine(last, line, links, TrailerLines(trailers[..k]));
      total := total + |line|;
    }
    assert trailers[..|trailers|] == trailers;
  }

  ghost predicate Disjoint(a: seq<Link>, b: seq<Link>) {
    forall i, j :: 0 <= i < |a| && 0 <= j < |b| ==> a[i] != b[j]
  }

  lemma DisjointUnion(a: seq<Link>, b: seq<Link>, c: seq<Link>)
    requires Disjoint(a, c) && Disjoint(b, c)
    ensures Disjoint(a + b, c)
  {
  }

  /** A piece of the output with its first and last link; it may be absent. */
  ghost predicate Piece(head: Link?, last: Link?, links: seq<Link>, slices: Slices)
    reads links
  {
    if head == null then links == [] && slices == []
    else Linked(links) && links[0] == head && links[|links| - 1] == last && Holds(links, slices)
  }

  /** Hangs a piece behind the last link of a chain. */
  method Attach(last: Link, head: Link?, tail: Link?, ghost a: seq<Link>, ghost x: Slices,
                ghost b: seq<Link>, ghost y: Slices)
    returns (last': Link)
    requires Linked(a) && a[|a| - 1] == last && Holds(a, x)
    requires Piece(head, tail, b, y) && Disjoint(a, b)
    modifies last`next
    ensures Linked(a + b) && (a + b)[|a + b| - 1] == last' && Holds(a + b, x + y)
    ensures last' == if head == null then last else tail
  {
    if head == null {
      assert a + b == a && x + y == x;
      return last;
    }
    last.next := head;
    last' := tail;
    assert forall i :: 0 <= i < |b| ==> b[i] != last;
  }

  /** The links hold these buffers, and exactly the final one is marked as the last. */
  ghost predicate Marked(links: seq<Link>, slices: Slices)
    reads links
  {
    && |links| == |slices|
    && forall i :: 0 <= i < |links| ==> links[i].buf == Some(slices[i]) && (links[i].lastBuf <==> i + 1 == |links|)
  }

  method MarkLast(last: Link, ghost links: seq<Link>, ghost slices: Slices)
    requires Linked(links) && links[|links| - 1] == last && Holds(links, slices)
    modifies last`lastBuf
    ensures Linked(links) && Marked(links, slices)
  {
    if last.buf.Some? {
      last.lastBuf := true;
    }
  }

  /** The frame: a header, the status, the message if there is one, the trailers if there are any;
      the last of these links is marked. */
  method EncodesGrpcTrailersFrame(status: Link, message: Link?, trailers: Link?, trailersLast: Link?, total: nat,
                                  ghost l1: seq<Link>, ghost s1: Slices, ghost l2: seq<Link>, ghost s2: Slices,
                                  ghost l3: seq<Link>, ghost s3: Slices)
    returns (frame: Link, ghost links: seq<Link>)
    requires Piece(status, status, l1, s1) && Piece(message, message, l2, s2) && Piece(trailers, trailersLast, l3, s3)
    requires Disjoint(l1, l2) && Disjoint(l1, l3) && Disjoint(l2, l3)
    modifies l1, l2, l3
    ensures Linked(links) && links[0] == frame && fresh(frame)
    ensures Marked(links, [TrailerHeader(total)] + s1 + s2 + s3)
  {
    ghost var header := [TrailerHeader(total)];
    var last;
    frame, last := StartFrame(status, total, l1, s1);
    ghost var begun := [frame] + l1;
    assert Disjoint(begun, l2) by { DisjointUnion([frame], l1, l2); }
    assert Disjoint(begun + l2, l3) by {
      DisjointUnion([frame], l1, l3);
      DisjointUnion(begun, l2, l3);
    }
    last := Attach(last, message, message, begun, header + s1, l2, s2);
    last := Attach(last, trailers, trailersLast, begun + l2, header + s1 + s2, l3, s3);
    links := begun + l2 + l3;
    MarkLast(last, links, header + s1 + s2 + s3);
  }

  /** The header link with the status behind it. */
  method StartFrame(status: Link, total: nat, ghost l1: seq<Link>, ghost s1: Slices) returns (frame: Link, last: Link)
    requires Piece(status, status, l1, s1)
    ensures fresh(frame) && Linked([frame] + l1) && Holds([frame] + l1, [TrailerHeader(total)] + s1)
    ensures ([frame] + l1)[|l1|] == last
  {
    frame := new Link(Some(TrailerHeader(total)));
    last := Attach(frame, status, status, [frame], [TrailerHeader(total)], l1, s1);
  }

  method EncodesGrpcStatusCode(code: nat, length: nat) returns (link: Link, total: nat)
    ensures fresh(link) && Piece(link, link, [link], [StatusLine(code)])
    ensures total == length + |StatusLine(code)|
  {
    var line := StatusLine(code);
    link := new Link(Some(line));
    total := length + |line|;
  }

  method EncodesGrpcMessage(message: Bytes, length: nat) returns (link: Link?, total: nat, ghost links: seq<Link>)
    ensures fresh(links) && Piece(link, link, links, MessageLines(message))
    ensures total == length + |Flatten(MessageLines(message))|
  {
    if message == [] {
      return null, length, [];
    }
    var line := Line(Ascii("grpc-message"), message);
    FlattenOne(line);
    var made := new Link(Some(line));
    return made, length + |line|, [made];
  }

  method EncodesTrailers(trailers: seq<Trailer>, length: nat)
    returns (head: Link?, last: Link?, total: nat, ghost links: seq<Link>)
    ensures fresh(links) && Piece(head, last, links, TrailerLines(trailers))
    ensures total == length + |Flatten(TrailerLines(trailers))|
  {
    if trailers == [] {
      return null, null, length, [];
    }
    var first := new Link(None);
    head := first;
    last, total, links := EncodesGrpcCustomTrailers(trailers, first, length);
  }

  lemma Regroup(a: Slices, b: Slices, c: Slices, d: Slices)
    ensures a + b + c + d == a + (b + c + d)
  {
  }

  /** Ends a response: what the links hold, in order, is a frame header that declares the length
      of the lines after it, and only the final link is marked as the last. */
  method GrpcWebFinish(code: nat, message: Bytes, trailers: seq<Trailer>) returns (output: Link, ghost links: seq<Link>)
    ensures Linked(links) && links[0] == output
    ensures var lines := Lines(code, message, trailers);
            Marked(links, [TrailerHeader(|Flatten(lines)|)] + lines)
  {
    var status, text, head, last, total, l2, l3 := EncodesLines(code, message, trailers);
    assert total == |Flatten(Lines(code, message, trailers))| by { LinesLength(code, message, trailers); }
    output, links := EncodesGrpcTrailersFrame(status, text, head, last, total,
      [status], [StatusLine(code)], l2, MessageLines(message), l3, TrailerLines(trailers));
    Regroup([TrailerHeader(total)], [StatusLine(code)], MessageLines(message), TrailerLines(trailers));
  }

  /** The links of the status, the message and the trailers, with the length of all lines. */
  method EncodesLines(code: nat, message: Bytes, trailers: seq<Trailer>)
    returns (status: Link, text: Link?, head: Link?, last: Link?, total: nat, ghost l2: seq<Link>, ghost l3: seq<Link>)
    ensures fresh(status) && fresh(l2) && fresh(l3)
    ensures Disjoint([status], l2) && Disjoint([status], l3) && Disjoint(l2, l3)
    ensures Piece(status, status, [status], [StatusLine(code)])
    ensures Piece(text, text, l2, MessageLines(message)) && Piece(head, last, l3, TrailerLines(trailers))
    ensures total == |StatusLine(code)| + |Flatten(MessageLines(message))| + |Flatten(TrailerLines(trailers))|
  {
    var length;
    status, length := EncodesGrpcStatusCode(code, 0);
    text, length, l2 := EncodesGrpcMessage(message, length);
    head, last, total, l3 := EncodesTrailers(trailers, length);
  }
}
