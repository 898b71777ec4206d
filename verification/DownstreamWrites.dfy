/** The write side of grpc_server_call.cc: Write, OnDownstreamWriteable and Cleanup. Whether nginx
    sends a message at once, fails or blocks is free. */
module DownstreamWrites {
  import opened Wrappers

  /** A call of a write continuation. */
  datatype Reply = Reply(id: nat, ok: bool)

  /** handler: nginx's write handler is OnDownstreamWriteable. blocked: the write whose
      continuation is kept until the message has been flushed. */
  datatype State = State(open: bool, handler: bool, blocked: Option<nat>, issued: seq<nat>, replies: seq<Reply>)

  /** What becomes of a message that is written. A message that cannot be converted ends the
      request. */
  datatype Outcome = Sent | Failed | Blocked | ConversionFails

  datatype Flush = Flushed | FlushFails | StillBlocked

  datatype Event =
    | Write(id: nat, outcome: Outcome)
    | Writeable(flush: Flush)
    | Cleanup

  const INITIAL := State(true, false, None, [], [])

  /** The flow writes again only when its last write was answered; nginx calls back, and cleans up,
      only while there is a request. */
  predicate Enabled(s: State, e: Event) {
    match e
    case Write(_, _) => s.blocked.None?
    case Writeable(_) => s.open && s.handler
    case Cleanup => s.open
  }

  function Answer(s: State, id: nat, ok: bool): State {
    s.(replies := s.replies + [Reply(id, ok)])
  }

  function Apply(s: State, e: Event): State {
    match e
    case Write(id, outcome) =>
      var t := s.(issued := s.issued + [id]);
      if !s.open then Answer(t, id, false)
      else (
        match outcome
        case Sent => Answer(t, id, true)
        case Failed => Answer(t, id, false)
        case Blocked => t.(blocked := Some(id), handler := true)
        case ConversionFails => Answer(t.(open := false), id, false)
      )
    case Writeable(flush) =>
      if flush.StillBlocked? || s.blocked.None? then s
      else Answer(s.(blocked := None), s.blocked.value, flush.Flushed?)
    case Cleanup => s.(open := false)
  }

  // ---------- runs

  predicate Legal(es: seq<Event>) {
    es == [] || (Legal(es[..|es| - 1]) && Enabled(Run(es[..|es| - 1]), es[|es| - 1]))
  }

  function Run(es: seq<Event>): State {
    if es == [] then INITIAL else Apply(Run(es[..|es| - 1]), es[|es| - 1])
  }

  // ---------- what the events say

  /** The request has ended. */
  predicate Ends(e: Event) {
    e.Cleanup? || (e.Write? && e.outcome.ConversionFails?)
  }

  ghost predicate Over(es: seq<Event>) {
    exists k :: 0 <= k < |es| && Ends(es[k])
  }

  /** The last write blocked while there was a request, and no flush has got through since. */
  ghost predicate Waiting(es: seq<Event>) {
    es != [] &&
    var front, e := es[..|es| - 1], es[|es| - 1];
    match e
    case Write(_, outcome) => outcome.Blocked? && !Over(front)
    case Writeable(flush) => flush.StillBlocked? && Waiting(front)
    case Cleanup => Waiting(front)
  }

  /** A cleanup came while a write was blocked. */
  ghost predicate CleanupWhileWaiting(es: seq<Event>) {
    exists k :: 0 <= k < |es| && es[k].Cleanup? && Waiting(es[..k])
  }

  lemma OverStep(front: seq<Event>, e: Event)
    ensures Over(front + [e]) <==> Over(front) || Ends(e)
  {
    var es := front + [e];
    if Over(front) {
      var k :| 0 <= k < |front| && Ends(front[k]);
      assert Ends(es[k]);
    }
    if Ends(e) { assert Ends(es[|front|]); }
  }

  lemma CleanupStep(front: seq<Event>, e: Event)
    ensures CleanupWhileWaiting(front + [e]) <==> CleanupWhileWaiting(front) || (e.Cleanup? && Waiting(front))
  {
    var es := front + [e];
    assert forall k :: 0 <= k <= |front| ==> es[..k] == front[..k];
    assert front[..|front|] == front;
    if CleanupWhileWaiting(front) {
      var k :| 0 <= k < |front| && front[k].Cleanup? && Waiting(front[..k]);
      assert es[k].Cleanup? && Waiting(es[..k]);
    }
    if e.Cleanup? && Waiting(front) { assert es[|front|].Cleanup? && Waiting(es[..|front|]); }
  }

  // ---------- every run

  function Ids(replies: seq<Reply>): seq<nat> {
    if replies == [] then [] else Ids(replies[..|replies| - 1]) + [replies[|replies| - 1].id]
  }

  function BlockedIds(blocked: Option<nat>): seq<nat> {
    if blocked.Some? then [blocked.value] else []
  }

  lemma OneMoreReply(replies: seq<Reply>, r: Reply)
    ensures Ids(replies + [r]) == Ids(replies) + [r.id]
  {
    assert (replies + [r])[..|replies|] == replies;
  }

  /** A write that nothing will answer. */
  predicate Stranded(s: State) {
    !s.open && s.blocked.Some?
  }

  /** The state is what the events say. */
  ghost predicate Inv(es: seq<Event>, s: State) {
    && s.issued == Ids(s.replies) + BlockedIds(s.blocked)
    && (s.open && s.blocked.Some? ==> s.handler)
    && (s.open <==> !Over(es))
    && (s.blocked.Some? <==> Waiting(es))
    && (Stranded(s) <==> CleanupWhileWaiting(es))
  }

  lemma AnswerKeeps(s: State, id: nat, ok: bool)
    requires s.blocked.None? && s.issued == Ids(s.replies) + [id]
    ensures var t := Answer(s, id, ok); t.issued == Ids(t.replies) + BlockedIds(t.blocked)
  {
    OneMoreReply(s.replies, Reply(id, ok));
    assert Ids(s.replies) + [id] + [] == Ids(s.replies) + [id];
  }

  lemma AnsweredKept(s: State, e: Event)
    requires s.issued == Ids(s.replies) + BlockedIds(s.blocked) && Enabled(s, e)
    ensures var t := Apply(s, e); t.issued == Ids(t.replies) + BlockedIds(t.blocked)
  {
    if e.Write? {
      var t := s.(issued := s.issued + [e.id]);
      assert s.issued == Ids(s.replies);
      if !s.open {
        AnswerKeeps(t, e.id, false);
      } else if !e.outcome.Blocked? {
        AnswerKeeps(t.(open := !e.outcome.ConversionFails?), e.id, e.outcome.Sent?);
      }
    } else if e.Writeable? && s.blocked.Some? {
      AnswerKeeps(s.(blocked := None), s.blocked.value, e.flush.Flushed?);
    }
  }

  lemma WaitingStep(front: seq<Event>, e: Event)
    ensures Waiting(front + [e]) <==>
            match e
            case Write(_, outcome) => outcome.Blocked? && !Over(front)
            case Writeable(flush) => flush.StillBlocked? && Waiting(front)
            case Cleanup => Waiting(front)
  {
    assert (front + [e])[..|front|] == front;
  }

  lemma InvKept(front: seq<Event>, s: State, e: Event)
    requires Inv(front, s) && Enabled(s, e)
    ensures Inv(front + [e], Apply(s, e))
  {
    AnsweredKept(s, e);
    OverStep(front, e);
    WaitingStep(front, e);
    CleanupStep(front, e);
  }

  lemma {:induction false} InvOverRun(es: seq<Event>)
    requires Legal(es)
    ensures Inv(es, Run(es))
  {
    if es != [] {
      var front, e := es[..|es| - 1], es[|es| - 1];
      InvOverRun(front);
      InvKept(front, Run(front), e);
      assert es == front + [e];
    }
  }

  /** Over every run: writes are answered in order and at most once, and one that waits for an open
      request will be called back. Once the request is over, every write has been answered exactly
      once if and only if no cleanup came while a write was blocked. */
  lemma WritesAreAnswered(es: seq<Event>)
    requires Legal(es)
    ensures var s := Run(es);
            && s.issued == Ids(s.replies) + BlockedIds(s.blocked)
            && (s.blocked.Some? && !Over(es) ==> s.handler)
            && (Over(es) ==> (s.issued == Ids(s.replies) <==> !CleanupWhileWaiting(es)))
  {
    InvOverRun(es);
    var s := Run(es);
    assert Ids(s.replies) + [] == Ids(s.replies);
  }

  lemma LastWasEnabled(es: seq<Event>, e: Event)
    requires Legal(es + [e])
    ensures Enabled(Run(es), e)
  {
    assert (es + [e])[..|es|] == es;
  }

  lemma NextWasEnabled(es: seq<Event>, e: Event, rest: seq<Event>)
    requires Legal(es + [e] + rest)
    ensures Enabled(Run(es), e)
  {
    LegalPrefix(es + [e], rest);
    LastWasEnabled(es, e);
  }

  lemma SplitFirst(es: seq<Event>, more: seq<Event>)
    requires more != []
    ensures es + more == es + [more[0]] + more[1..]
  {
  }

  lemma NothingWhenStranded(s: State, e: Event)
    requires Stranded(s)
    ensures !Enabled(s, e)
  {
  }

  /** A stranded write stays so: nothing can happen any more. */
  lemma StrandedIsFinal(es: seq<Event>, more: seq<Event>)
    requires Legal(es + more) && Stranded(Run(es))
    ensures more == []
  {
    if more != [] {
      SplitFirst(es, more);
      NextWasEnabled(es, more[0], more[1..]);
      NothingWhenStranded(Run(es), more[0]);
    }
  }

  lemma {:induction false} LegalPrefix(es: seq<Event>, more: seq<Event>)
    requires Legal(es + more)
    ensures Legal(es)
    decreases |more|
  {
    if more == [] {
      assert es + more == es;
    } else {
      assert (es + more)[..|es + more| - 1] == es + more[..|more| - 1];
      LegalPrefix(es, more[..|more| - 1]);
    }
  }

  /** Such a run: the client goes away while a message is in the outgoing queue. */
  lemma ClientLeavesDuringWrite()
    ensures var es := [Write(0, Blocked), Event.Cleanup];
            Legal(es) && Stranded(Run(es)) && Run(es).issued == [0] && Run(es).replies == []
  {
    var es := [Write(0, Blocked), Event.Cleanup];
    assert es[..1] == [Write(0, Blocked)] && es[..1][..0] == [];
    assert Legal(es[..1]) && Run(es[..1]) == State(true, true, Some(0), [0], []);
  }
}
