/** The pass-through call as the client side of a flow: the replies of the read pump are what the
    flow is told about the client's messages. */
module PassThrough {
  import F = ProxyFlow
  import P = ReadPump
  import opened Framing

  /** The last flags that the flow's read continuation gets: one for each message, true with the
      status DONE. */
  function DoneFlags(replies: seq<P.Reply>): seq<bool> {
    if replies == [] then []
    else
      var before, r := DoneFlags(replies[..|replies| - 1]), replies[|replies| - 1];
      if r.proceed then before + [r.done] else before
  }

  /** A message that was done is among the replies, with its place. */
  lemma {:induction false} FlagHasReply(replies: seq<P.Reply>, i: nat) returns (k: nat)
    requires i < |DoneFlags(replies)|
    ensures k < |replies| && replies[k].proceed && replies[k].done == DoneFlags(replies)[i]
    ensures i + 1 < |DoneFlags(replies)| ==> exists j :: k < j < |replies| && replies[j].proceed
    decreases |replies|
  {
    var n := |replies| - 1;
    var front := replies[..n];
    if i < |DoneFlags(front)| {
      k := FlagHasReply(front, i);
      if i + 1 < |DoneFlags(front)| {
        var j :| k < j < |front| && front[j].proceed;
        assert replies[j].proceed;
      } else if i + 1 < |DoneFlags(replies)| {
        assert replies[n].proceed;
      }
    } else {
      k := n;
    }
  }

  lemma DoneIsLastFlag(s: P.State)
    requires P.DoneIsLast(s)
    ensures !F.MoreAfterLast(DoneFlags(s.history.replies))
  {
    var flags := DoneFlags(s.history.replies);
    forall i | 0 <= i < |flags| - 1 ensures !flags[i] {
      var k := FlagHasReply(s.history.replies, i);
      var m :| k < m < |s.history.replies| && s.history.replies[m].proceed;
    }
  }

  lemma PrefixOfFlags(a: seq<bool>, b: seq<bool>)
    requires a <= b && !F.MoreAfterLast(b)
    ensures !F.MoreAfterLast(a)
  {
    assert forall i :: 0 <= i < |a| ==> a[i] == b[i];
  }

  /** Over every run of the pump, no message follows one that came with DONE. */
  lemma NothingAfterDone(preread: Slices, more: bool, pump: seq<P.Event>)
    requires P.Legal(P.Initial(preread, more), pump)
    ensures !F.MoreAfterLast(DoneFlags(P.Run(P.Initial(preread, more), pump).history.replies))
  {
    P.PumpIsFaithful(preread, more, pump);
    DoneIsLastFlag(P.Run(P.Initial(preread, more), pump));
  }

  /** A flow whose client messages are the replies of the read pump, as far as it has got them,
      writes nothing upstream after the half-close. */
  lemma NoWriteAfterHalfClose(preread: Slices, more: bool, pump: seq<P.Event>, flow: seq<F.Event>, i: nat, j: nat)
    requires P.Legal(P.Initial(preread, more), pump) && F.Legal(F.Initial(), flow)
    requires F.Lasts(flow) <= DoneFlags(P.Run(P.Initial(preread, more), pump).history.replies)
    requires i < j < |F.Run(F.Initial(), flow).log| && F.HalfCloses(F.Run(F.Initial(), flow).log[i])
    ensures !F.Run(F.Initial(), flow).log[j].StartedWrite?
  {
    NothingAfterDone(preread, more, pump);
    PrefixOfFlags(F.Lasts(flow), DoneFlags(P.Run(P.Initial(preread, more), pump).history.replies));
    F.NoWriteAfterHalfClose(flow, i, j);
  }
}
