/** The read pump of grpc_server_call.cc: Read, RunPendingRead, CompletePendingRead and Cleanup,
    with continuations that call back into Read. One iteration of the loop is one transition;
    what the client's continuation does and what nginx delivers are free. */
module ReadPump {
  import opened Wrappers
  import opened Framing
  import opened Deframer

  /** A continuation call: whether to proceed, with which message, and whether with status DONE. */
  datatype Reply = Reply(id: nat, proceed: bool, message: Bytes, done: bool)

  /** Idle: outside RunPendingRead. Loop(t): at the head of its loop, t being
      try_read_unbuffered_request_body. Abandoned: it returned because the request was finalized. */
  datatype Phase = Idle | Loop(tryBody: bool) | Abandoned

  /** readable: the nginx read handler is OnDownstreamReadable. */
  datatype Connection = Connection(open: bool, readingBody: bool, readable: bool)

  /** The body buffers of the request and the slices taken from them; all bytes received and
      those of the messages delivered. */
  datatype Buffers = Buffers(body: Slices, slices: Slices, received: Bytes, consumed: Bytes)

  /** The reads asked for, in order, and the continuations called. */
  datatype History = History(issued: seq<nat>, replies: seq<Reply>)

  datatype State = State(phase: Phase, pending: Option<nat>, conn: Connection, buffers: Buffers, history: History)

  /** What a continuation does before it returns: it may read again, which it does only when told
      to proceed, and it may end the request. */
  datatype Reaction = Reaction(readAgain: Option<nat>, close: bool)

  /** What ngx_http_read_unbuffered_request_body does. */
  datatype Io = IoError | IoRead(buffers: Slices, more: bool)

  datatype Event =
    | Read(id: nat)
    | Iterate(io: Io, reaction: Reaction)
    | ConversionFails(io: Io)
    | Readable
    | Cleanup

  // ---------- transitions

  function Ask(s: State, id: nat): State {
    s.(pending := Some(id), history := s.history.(issued := s.history.issued + [id]))
  }

  function Answer(s: State, proceed: bool, message: Bytes, done: bool): State
    requires s.pending.Some?
  {
    s.(pending := None,
       history := s.history.(replies := s.history.replies + [Reply(s.pending.value, proceed, message, done)]))
  }

  /** The cleanup handler: a pending read is answered, then the call is cut off from the request. */
  function Close(s: State): State {
    var t := if s.pending.Some? then Answer(s, false, [], false) else s;
    t.(conn := t.conn.(open := false))
  }

  /** CompletePendingRead, including what the continuation does. */
  function Complete(s: State, proceed: bool, message: Bytes, reaction: Reaction): State
    requires s.pending.Some?
  {
    var done := proceed && !s.conn.readingBody && s.buffers.slices == [];
    var t := Answer(s, proceed, message, done);
    var u := if proceed && reaction.readAgain.Some? && t.conn.open then Ask(t, reaction.readAgain.value) else t;
    if reaction.close then Close(u) else u
  }

  predicate Enabled(s: State, e: Event) {
    match e
    case Read(_) => s.conn.open ==> s.phase.Idle? && s.pending.None?
    case Iterate(_, _) => s.phase.Loop?
    case ConversionFails(_) => s.phase.Loop? && s.pending.Some?
    case Readable => s.phase.Idle? && s.conn.open && s.conn.readable
    case Cleanup => s.phase.Idle? && s.conn.open
  }

  /** ConvertRequestBody: the body buffers become slices. */
  function Converted(b: Buffers): Buffers {
    b.(slices := b.slices + b.body, body := [])
  }

  /** A message was taken and rest is left of the slices. */
  function Consumed(b: Buffers, rest: Slices): Buffers {
    var bytes := Flatten(b.slices);
    var n := if |Flatten(rest)| <= |bytes| then |bytes| - |Flatten(rest)| else 0;
    b.(slices := rest, consumed := b.consumed + bytes[..n])
  }

  predicate SomeBytes(buffers: Slices) {
    exists i :: 0 <= i < |buffers| && |buffers[i]| > 0
  }

  /** One iteration of the loop of RunPendingRead. */
  function IterateOnce(s: State, io: Io, reaction: Reaction): State
    requires s.phase.Loop?
  {
    if s.pending.None? then
      s.(phase := Idle, conn := if s.conn.open then s.conn.(readable := false) else s.conn)
    else
      var t := s.(buffers := Converted(s.buffers));
      var taken := TakeMessage(t.buffers.slices);
      if taken.Some? then
        var (msg, rest) := taken.value;
        Complete(t.(buffers := Consumed(t.buffers, rest)), true, Flatten(msg), reaction)
      else if !t.conn.readingBody then Complete(t, false, [], reaction)
      else if !s.phase.tryBody then t.(phase := Idle, conn := t.conn.(readable := true))
      else
        match io
        case IoError => Complete(t, false, [], reaction)
        case IoRead(buffers, more) =>
          t.(phase := Loop(SomeBytes(buffers)), conn := t.conn.(readingBody := more),
             buffers := t.buffers.(body := buffers, received := t.buffers.received + Flatten(buffers)))
  }

  function Apply(s: State, e: Event): State
    requires Enabled(s, e)
  {
    match e
    case Read(id) =>
      if s.conn.open then Ask(s, id).(phase := Loop(true))
      else
        var h := s.history;
        s.(history := History(h.issued + [id], h.replies + [Reply(id, false, [], false)]))
    case Iterate(io, reaction) => IterateOnce(s, io, reaction)
    case ConversionFails(_) => Close(s).(phase := Abandoned)
    case Readable => s.(phase := Loop(true))
    case Cleanup => Close(s)
  }

  /** After OnDownstreamPreread: some slices may have been read, and the body may have ended. */
  function Initial(preread: Slices, more: bool): State {
    State(Idle, None, Connection(true, more, false), Buffers([], preread, Flatten(preread), []), History([], []))
  }

  // ---------- histories

  function Ids(replies: seq<Reply>): seq<nat> {
    if replies == [] then [] else Ids(replies[..|replies| - 1]) + [replies[|replies| - 1].id]
  }

  /** The messages delivered. */
  function Messages(replies: seq<Reply>): seq<Bytes> {
    if replies == [] then []
    else
      var r := replies[|replies| - 1];
      var before := Messages(replies[..|replies| - 1]);
      if r.proceed then before + [r.message] else before
  }

  lemma OneMoreReply(replies: seq<Reply>, r: Reply)
    ensures Ids(replies + [r]) == Ids(replies) + [r.id]
    ensures Messages(replies + [r]) == if r.proceed then Messages(replies) + [r.message] else Messages(replies)
  {
    assert (replies + [r])[..|replies|] == replies;
  }

  function PendingIds(p: Option<nat>): seq<nat> {
    if p.Some? then [p.value] else []
  }

  // ---------- invariants

  /** Reads are answered in order, each once; a closed call has none pending. */
  ghost predicate Answered(s: State) {
    && s.history.issued == Ids(s.history.replies) + PendingIds(s.pending)
    && (!s.conn.open ==> s.pending.None?)
    && (s.phase.Abandoned? ==> !s.conn.open)
  }

  lemma AnsweredByAnswer(s: State, proceed: bool, message: Bytes, done: bool)
    requires s.history.issued == Ids(s.history.replies) + PendingIds(s.pending) && s.pending.Some?
    ensures var t := Answer(s, proceed, message, done);
            t.history.issued == Ids(t.history.replies) + PendingIds(t.pending)
  {
    OneMoreReply(s.history.replies, Reply(s.pending.value, proceed, message, done));
  }

  lemma AnsweredByClose(s: State)
    requires s.history.issued == Ids(s.history.replies) + PendingIds(s.pending)
    ensures Answered(Close(s)) && Answered(Close(s).(phase := Abandoned))
  {
    if s.pending.Some? { AnsweredByAnswer(s, false, [], false); }
  }

  lemma AnsweredByComplete(s: State, proceed: bool, message: Bytes, reaction: Reaction)
    requires Answered(s) && s.pending.Some?
    ensures Answered(Complete(s, proceed, message, reaction))
  {
    var done := proceed && !s.conn.readingBody && s.buffers.slices == [];
    AnsweredByAnswer(s, proceed, message, done);
    var t := Answer(s, proceed, message, done);
    var u := if proceed && reaction.readAgain.Some? && t.conn.open then Ask(t, reaction.readAgain.value) else t;
    assert u.history.issued == Ids(u.history.replies) + PendingIds(u.pending);
    if reaction.close { AnsweredByClose(u); }
  }

  lemma AnsweredKept(s: State, e: Event)
    requires Answered(s) && Enabled(s, e)
    ensures Answered(Apply(s, e))
  {
    match e
    case Read(id) =>
      if !s.conn.open { OneMoreReply(s.history.replies, Reply(id, false, [], false)); }
    case Iterate(io, reaction) =>
      if s.pending.Some? {
        var t := s.(buffers := Converted(s.buffers));
        var taken := TakeMessage(t.buffers.slices);
        if taken.Some? {
          AnsweredByComplete(t.(buffers := Consumed(t.buffers, taken.value.1)), true, Flatten(taken.value.0), reaction);
        } else {
          AnsweredByComplete(t, false, [], reaction);
        }
      }
    case ConversionFails(_) => AnsweredByClose(s);
    case Readable =>
    case Cleanup => AnsweredByClose(s);
  }

  /** No byte is lost or invented: what was received is what the delivered messages took, then
      the slices, then the body buffers; the messages are those of the received bytes. */
  ghost predicate Conserved(s: State) {
    var b := s.buffers;
    && b.received == b.consumed + Flatten(b.slices) + Flatten(b.body)
    && DeframeAll(b.consumed) == (Messages(s.history.replies), [])
  }

  lemma FirstFrame(b: Bytes)
    requires Deframe(b).Some?
    ensures var (msg, rest) := Deframe(b).value;
            var frame := b[..|b| - |rest|];
            b == frame + rest && DeframeAll(frame) == ([msg], [])
  {
    var (msg, rest) := Deframe(b).value;
    var frame := b[..|b| - |rest|];
    assert |frame| == HEADER_SIZE + |msg|;
    assert frame[1..5] == b[1..5];
    assert frame[HEADER_SIZE..HEADER_SIZE + |msg|] == msg;
    assert frame[HEADER_SIZE + |msg|..] == [];
    assert Deframe(frame) == Some((msg, []));
    assert DeframeAll([]) == ([], []);
    assert [msg] + [] == [msg];
  }

  lemma NothingMore(b: Bytes)
    ensures b + [] == b
  {
  }

  lemma ConservedByConversion(s: State)
    requires Conserved(s)
    ensures Conserved(s.(buffers := Converted(s.buffers)))
  {
    var b := s.buffers;
    FlattenAppend(b.slices, b.body);
    Regroup(b.consumed, Flatten(b.slices), Flatten(b.body));
    NothingMore(b.consumed + (Flatten(b.slices) + Flatten(b.body)));
  }

  lemma MessageTaken(consumed: Bytes, msgs: seq<Bytes>, b: Bytes)
    requires DeframeAll(consumed) == (msgs, []) && Deframe(b).Some?
    ensures var (msg, rest) := Deframe(b).value;
            var frame := b[..|b| - |rest|];
            && DeframeAll(consumed + frame) == (msgs + [msg], [])
            && consumed + b == consumed + frame + rest
  {
    var (msg, rest) := Deframe(b).value;
    var frame := b[..|b| - |rest|];
    FirstFrame(b);
    DeframeAllResumes(consumed, frame);
    assert [] + frame == frame;
    Regroup(consumed, frame, rest);
  }

  lemma ConservedByAnswer(s: State, proceed: bool, message: Bytes, reaction: Reaction)
    requires s.pending.Some?
    ensures var t := Complete(s, proceed, message, reaction);
            && t.buffers == s.buffers
            && Messages(t.history.replies) ==
               (if proceed then Messages(s.history.replies) + [message] else Messages(s.history.replies))
            && t.conn.readingBody == s.conn.readingBody && t.phase == s.phase
  {
    var done := proceed && !s.conn.readingBody && s.buffers.slices == [];
    var r := Reply(s.pending.value, proceed, message, done);
    OneMoreReply(s.history.replies, r);
    if proceed && reaction.readAgain.Some? && reaction.close && s.conn.open {
      OneMoreReply(s.history.replies + [r], Reply(reaction.readAgain.value, false, [], false));
    }
  }

  lemma ConsumedBytes(b: Buffers)
    requires TakeMessage(b.slices).Some?
    ensures var (msg, rest) := TakeMessage(b.slices).value;
            var all, left := Flatten(b.slices), Flatten(rest);
            && Deframe(all) == Some((Flatten(msg), left)) && |left| <= |all|
            && Consumed(b, rest) == b.(slices := rest, consumed := b.consumed + all[..|all| - |left|])
  {
    TakeMessageBytes(b.slices);
  }

  /** Taking a message moves its frame from the slices to what was delivered. */
  lemma ConsumedKeeps(b: Buffers, msgs: seq<Bytes>)
    requires b.received == b.consumed + Flatten(b.slices) && DeframeAll(b.consumed) == (msgs, [])
    requires TakeMessage(b.slices).Some?
    ensures var (msg, rest) := TakeMessage(b.slices).value;
            var c := Consumed(b, rest);
            && c.received == c.consumed + Flatten(c.slices) && c.body == b.body
            && DeframeAll(c.consumed) == (msgs + [Flatten(msg)], [])
  {
    ConsumedBytes(b);
    MessageTaken(b.consumed, msgs, Flatten(b.slices));
  }

  lemma ConservedByMessage(s: State, reaction: Reaction)
    requires Conserved(s) && s.pending.Some? && s.buffers.body == [] && TakeMessage(s.buffers.slices).Some?
    ensures var (msg, rest) := TakeMessage(s.buffers.slices).value;
            Conserved(Complete(s.(buffers := Consumed(s.buffers, rest)), true, Flatten(msg), reaction))
  {
    var b := s.buffers;
    var (msg, rest) := TakeMessage(b.slices).value;
    NothingMore(b.consumed + Flatten(b.slices));
    ConsumedKeeps(b, Messages(s.history.replies));
    var c := Consumed(b, rest);
    NothingMore(c.consumed + Flatten(c.slices));
    ConservedByAnswer(s.(buffers := c), true, Flatten(msg), reaction);
  }

  /** Bytes that arrive are added to both sides. */
  lemma ConservedByArrival(s: State, buffers: Slices, phase: Phase, conn: Connection)
    requires Conserved(s) && s.buffers.body == []
    ensures Conserved(s.(phase := phase, conn := conn,
              buffers := s.buffers.(body := buffers, received := s.buffers.received + Flatten(buffers))))
  {
    NothingMore(s.buffers.consumed + Flatten(s.buffers.slices));
  }

  lemma ConservedByIteration(s: State, io: Io, reaction: Reaction)
    requires Conserved(s) && s.phase.Loop? && s.pending.Some?
    ensures Conserved(IterateOnce(s, io, reaction))
  {
    var t := s.(buffers := Converted(s.buffers));
    ConservedByConversion(s);
    if TakeMessage(t.buffers.slices).Some? {
      ConservedByMessage(t, reaction);
    } else if t.conn.readingBody && s.phase.tryBody && io.IoRead? {
      ConservedByArrival(t, io.buffers, Loop(SomeBytes(io.buffers)), t.conn.(readingBody := io.more));
    } else {
      ConservedByAnswer(t, false, [], reaction);
    }
  }

  lemma ConservedKept(s: State, e: Event)
    requires Conserved(s) && Enabled(s, e)
    ensures Conserved(Apply(s, e))
  {
    match e
    case Read(id) =>
      if !s.conn.open { OneMoreReply(s.history.replies, Reply(id, false, [], false)); }
    case Iterate(io, reaction) =>
      if s.pending.Some? { ConservedByIteration(s, io, reaction); }
    case _ =>
      if s.pending.Some? { OneMoreReply(s.history.replies, Reply(s.pending.value, false, [], false)); }
  }

  /** Status DONE came with the last message: the body has ended and nothing is buffered. */
  ghost predicate Ended(s: State) {
    s.conn.readingBody == false && s.buffers.slices == [] && s.buffers.body == []
  }

  ghost predicate DoneIsLast(s: State) {
    var rs := s.history.replies;
    && (forall i :: 0 <= i < |rs| && rs[i].done ==> Ended(s))
    && (forall i, j :: 0 <= i < j < |rs| && rs[i].done ==> !rs[j].proceed)
  }

  lemma NothingToTake()
    ensures TakeMessage([]).None?
  {
  }

  lemma DoneByComplete(s: State, proceed: bool, message: Bytes, reaction: Reaction)
    requires DoneIsLast(s) && s.pending.Some? && s.buffers.body == []
    requires proceed ==> forall i :: 0 <= i < |s.history.replies| ==> !s.history.replies[i].done
    ensures DoneIsLast(Complete(s, proceed, message, reaction))
  {
  }

  lemma DoneKept(s: State, e: Event)
    requires DoneIsLast(s) && Enabled(s, e)
    ensures DoneIsLast(Apply(s, e))
  {
    NothingToTake();
    if e.Iterate? && s.pending.Some? {
      var t := s.(buffers := Converted(s.buffers));
      assert Ended(s) ==> t.buffers.slices == [];
      var taken := TakeMessage(t.buffers.slices);
      if taken.Some? {
        var u := t.(buffers := Consumed(t.buffers, taken.value.1));
        assert forall i :: 0 <= i < |s.history.replies| ==> !s.history.replies[i].done;
        DoneByComplete(u, true, Flatten(taken.value.0), e.reaction);
      } else {
        DoneByComplete(t, false, [], e.reaction);
      }
    }
  }

  /** A read that waits does so for a reason: no complete message is buffered, the body has not
      ended, and nginx will call back. */
  ghost predicate WaitsForData(s: State) {
    s.phase.Idle? && s.pending.Some? ==>
      s.conn.readable && s.conn.readingBody && s.buffers.body == [] && Deframe(Flatten(s.buffers.slices)).None?
  }

  lemma WaitsKept(s: State, e: Event)
    requires WaitsForData(s) && Enabled(s, e)
    ensures WaitsForData(Apply(s, e))
  {
    if e.Iterate? && s.pending.Some? {
      TakeMessageBytes(Converted(s.buffers).slices);
      assert Apply(s, e).phase.Idle? ==> Apply(s, e).buffers == Converted(s.buffers);
    }
  }

  // ---------- every run

  predicate Legal(s: State, es: seq<Event>)
    decreases |es|
  {
    es == [] || (Enabled(s, es[0]) && Legal(Apply(s, es[0]), es[1..]))
  }

  function Run(s: State, es: seq<Event>): State
    requires Legal(s, es)
    decreases |es|
  {
    if es == [] then s else Run(Apply(s, es[0]), es[1..])
  }

  ghost predicate Inv(s: State) {
    Answered(s) && Conserved(s) && DoneIsLast(s) && WaitsForData(s)
  }

  lemma {:induction false} InvOverRun(s: State, es: seq<Event>)
    requires Inv(s) && Legal(s, es)
    ensures Inv(Run(s, es))
    decreases |es|
  {
    if es != [] {
      AnsweredKept(s, es[0]);
      ConservedKept(s, es[0]);
      DoneKept(s, es[0]);
      WaitsKept(s, es[0]);
      InvOverRun(Apply(s, es[0]), es[1..]);
    }
  }

  lemma InvInitially(preread: Slices, more: bool)
    ensures Inv(Initial(preread, more))
  {
    assert [] + Flatten(preread) + [] == Flatten(preread);
    assert DeframeAll([]) == ([], []);
  }

  /** The messages delivered are the first of the bytes received, and all of them at the end. */
  lemma DeliveredInOrder(s: State)
    requires Conserved(s) && DoneIsLast(s)
    ensures Messages(s.history.replies) <= DeframeAll(s.buffers.received).0
    ensures forall i :: 0 <= i < |s.history.replies| && s.history.replies[i].done ==>
              s.buffers.received == s.buffers.consumed
              && Messages(s.history.replies) == DeframeAll(s.buffers.received).0
  {
    var b := s.buffers;
    Regroup(b.consumed, Flatten(b.slices), Flatten(b.body));
    DeframeAllResumes(b.consumed, Flatten(b.slices) + Flatten(b.body));
    assert b.consumed + [] == b.consumed;
  }

  /** Over every run: the continuations are called once each, in the order of the reads, all of
      them once the call is closed; the messages delivered are the first messages of the bytes
      received, in order, and no byte is lost; DONE comes with a message after which every byte
      received has been delivered and no message follows; a read that waits has no message to
      take. */
  lemma PumpIsFaithful(preread: Slices, more: bool, es: seq<Event>)
    requires Legal(Initial(preread, more), es)
    ensures var s := Run(Initial(preread, more), es);
            && s.history.issued == Ids(s.history.replies) + PendingIds(s.pending)
            && (!s.conn.open ==> s.history.issued == Ids(s.history.replies))
            && Messages(s.history.replies) <= DeframeAll(s.buffers.received).0
            && (forall i :: 0 <= i < |s.history.replies| && s.history.replies[i].done ==>
                  s.buffers.received == s.buffers.consumed
                  && Messages(s.history.replies) == DeframeAll(s.buffers.received).0)
            && DoneIsLast(s) && WaitsForData(s)
  {
    InvInitially(preread, more);
    InvOverRun(Initial(preread, more), es);
    var s := Run(Initial(preread, more), es);
    DeliveredInOrder(s);
    assert Ids(s.history.replies) + [] == Ids(s.history.replies);
  }

  // ---------- the loop ends

  /** The events of the loop itself. */
  predicate InLoop(e: Event) {
    e.Iterate? || e.ConversionFails?
  }

  /** What the loop has left to do: buffered bytes to deliver, a read to answer, a body to try. */
  function Work(s: State): nat {
    |Flatten(s.buffers.slices)| + |Flatten(s.buffers.body)|
    + (if s.pending.Some? then 1 else 0)
    + (if s.phase.Loop? then (if s.phase.tryBody then 2 else 1) else 0)
  }

  lemma {:induction false} NoBytesMeans(buffers: Slices)
    ensures SomeBytes(buffers) <==> Flatten(buffers) != []
  {
    if buffers != [] {
      NoBytesMeans(buffers[1..]);
      assert forall i :: 0 < i < |buffers| ==> buffers[i] == buffers[1..][i - 1];
      assert forall i :: 0 <= i < |buffers[1..]| ==> buffers[1..][i] == buffers[i + 1];
    }
  }

  lemma CompleteReducesWork(s: State, proceed: bool, message: Bytes, reaction: Reaction)
    requires s.pending.Some?
    ensures var t := Complete(s, proceed, message, reaction);
            Work(t) <= Work(s) && t.buffers == s.buffers && (!proceed ==> Work(t) < Work(s))
  {
  }

  /** An iteration that gets no bytes reduces the work; bytes that arrive add as much as they are. */
  lemma IterationReducesWork(s: State, io: Io, reaction: Reaction)
    requires s.phase.Loop?
    ensures var t := IterateOnce(s, io, reaction);
            && |t.buffers.received| >= |s.buffers.received|
            && Work(t) + 1 <= Work(s) + 2 * (|t.buffers.received| - |s.buffers.received|)
  {
    if s.pending.Some? {
      var t := s.(buffers := Converted(s.buffers));
      FlattenAppend(s.buffers.slices, s.buffers.body);
      assert Work(t) == Work(s) && t.buffers.received == s.buffers.received;
      TakeMessageBytes(t.buffers.slices);
      var taken := TakeMessage(t.buffers.slices);
      if taken.Some? {
        var u := t.(buffers := Consumed(t.buffers, taken.value.1));
        assert Work(u) < Work(t);
        CompleteReducesWork(u, true, Flatten(taken.value.0), reaction);
      } else {
        CompleteReducesWork(t, false, [], reaction);
        if io.IoRead? { NoBytesMeans(io.buffers); }
      }
    }
  }

  lemma LoopStepReducesWork(s: State, e: Event)
    requires Enabled(s, e) && InLoop(e)
    ensures var t := Apply(s, e);
            && |t.buffers.received| >= |s.buffers.received|
            && Work(t) + 1 <= Work(s) + 2 * (|t.buffers.received| - |s.buffers.received|)
  {
    if e.Iterate? { IterationReducesWork(s, e.io, e.reaction); }
  }

  /** However often continuations read again, the loop ends: the number of its steps is bounded by
      the work there was and the bytes that arrived. A loop that has ended leaves no read pending,
      or one that waits for more data and will be called back. */
  lemma {:induction false} LoopEnds(s: State, es: seq<Event>)
    requires Inv(s) && Legal(s, es) && forall i :: 0 <= i < |es| ==> InLoop(es[i])
    ensures var t := Run(s, es);
            && |t.buffers.received| >= |s.buffers.received|
            && |es| <= Work(s) + 2 * (|t.buffers.received| - |s.buffers.received|)
    ensures var t := Run(s, es);
            !t.phase.Loop? && t.pending.Some? ==>
              t.conn.readable && t.conn.readingBody && Deframe(Flatten(t.buffers.slices)).None?
    ensures (forall e :: InLoop(e) ==> !Enabled(Run(s, es), e)) <==> !Run(s, es).phase.Loop?
    decreases |es|
  {
    if es != [] {
      LoopStepReducesWork(s, es[0]);
      AnsweredKept(s, es[0]);
      ConservedKept(s, es[0]);
      DoneKept(s, es[0]);
      WaitsKept(s, es[0]);
      assert forall i :: 0 <= i < |es[1..]| ==> es[1..][i] == es[i + 1];
      LoopEnds(Apply(s, es[0]), es[1..]);
    } else {
      assert s.phase.Loop? ==> Enabled(s, Iterate(IoError, Reaction(None, false)));
    }
  }
}
