/** The ProxyFlow state machine of proxy_flow.cc. Every callback runs on the nginx main thread,
    so a callback is one transition, except that a callback which starts two operations is
    split in two: the first operation may complete before the second is started. */
module ProxyFlow {
  import opened Wrappers

  type Message = nat

  /** What a cleared buffer holds. */
  const CLEARED: Message := 0

  datatype Status = StatusOk | StatusError(code: nat)

  const UNAVAILABLE := StatusError(14)
  const UNKNOWN := StatusError(2)

  datatype Op =
    | Call
    | ReadInitialMetadata
    | SendInitialMetadata
    | DownstreamRead
    | UpstreamWritesDone
    | UpstreamRead
    | DownstreamWrite
    | UpstreamFinish

  /** How many operations of each kind are outstanding: their callback has not run. restOfCall and
      restOfMetadata count callbacks that have run only their first half. */
  datatype Work = Work(
    call: nat, restOfCall: nat, readMetadata: nat, restOfMetadata: nat, sendMetadata: nat,
    downstreamRead: nat, upstreamWrite: nat, writesDone: nat,
    upstreamRead: nat, downstreamWrite: nat, upstreamFinish: nat)

  /** What the flow has done, in order. The statuses of Finished are the proxy's own and the one
      sent to the client. */
  datatype Action =
    | Started(op: Op)
    | StartedWrite(last: bool)
    | Finished(esp: Status, sent: Status)

  /** The fields of the flow that its callbacks test and set. */
  datatype Flags = Flags(
    sentUpstreamWritesDone: bool,
    startedUpstreamFinish: bool,
    sentDownstreamFinish: bool,
    cancelRegistered: bool,
    halfCloseStatus: Status,
    statusFromUpstream: Option<Status>)

  /** The messages read from the client and written upstream, read from upstream and written to
      the client; whether the client sent a last message, and another one after it. */
  datatype Traffic = Traffic(
    clientRead: seq<Message>,
    upstreamWritten: seq<Message>,
    upstreamRead: seq<Message>,
    clientWritten: seq<Message>,
    lastSeen: bool,
    messageAfterLast: bool)

  /** The two buffers of the flow, and how many outstanding reads have put their message into them
      although their callbacks have not run. */
  datatype Buffers = Buffers(toUpstream: Message, requestsIn: nat, toClient: Message, responsesIn: nat)

  datatype State = State(flags: Flags, outstanding: Work, buffers: Buffers, traffic: Traffic, log: seq<Action>)

  // ---------- the Start functions

  /** The operation is added to the outstanding work w, and logged. */
  function Issue(s: State, w: Work, op: Op): State {
    s.(outstanding := w, log := s.log + [Started(op)])
  }

  function StartDownstreamReadMessage(s: State): State {
    var w := s.outstanding;
    if s.flags.sentDownstreamFinish then s else Issue(s, w.(downstreamRead := w.downstreamRead + 1), DownstreamRead)
  }

  function StartUpstreamWritesDone(s: State, status: Status): State {
    var f, w := s.flags, s.outstanding;
    if f.sentUpstreamWritesDone then s
    else
      var t := s.(flags := f.(sentUpstreamWritesDone := true, cancelRegistered := true, halfCloseStatus := status));
      Issue(t, w.(writesDone := w.writesDone + 1), UpstreamWritesDone)
  }

  /** Writes what the buffer holds. */
  function StartUpstreamWriteMessage(s: State, last: bool): State {
    if last && s.flags.sentUpstreamWritesDone then s
    else
      var t := if last then s.(flags := s.flags.(sentUpstreamWritesDone := true, cancelRegistered := true)) else s;
      t.(outstanding := t.outstanding.(upstreamWrite := t.outstanding.upstreamWrite + 1),
         traffic := t.traffic.(upstreamWritten := t.traffic.upstreamWritten + [t.buffers.toUpstream]),
         log := t.log + [StartedWrite(last)])
  }

  function StartUpstreamReadInitialMetadata(s: State): State {
    var w := s.outstanding;
    if s.flags.sentDownstreamFinish then s else Issue(s, w.(readMetadata := w.readMetadata + 1), ReadInitialMetadata)
  }

  function StartDownstreamWriteInitialMetadata(s: State): State {
    var w := s.outstanding;
    if s.flags.sentDownstreamFinish then s else Issue(s, w.(sendMetadata := w.sendMetadata + 1), SendInitialMetadata)
  }

  function StartUpstreamReadMessage(s: State): State {
    var w := s.outstanding;
    if s.flags.sentDownstreamFinish then s else Issue(s, w.(upstreamRead := w.upstreamRead + 1), UpstreamRead)
  }

  /** Writes what the buffer holds. */
  function StartDownstreamWriteMessage(s: State): State {
    var w := s.outstanding;
    if s.flags.sentDownstreamFinish then s
    else
      var t := s.(traffic := s.traffic.(clientWritten := s.traffic.clientWritten + [s.buffers.toClient]));
      Issue(t, w.(downstreamWrite := w.downstreamWrite + 1), DownstreamWrite)
  }

  function StartUpstreamFinish(s: State): State {
    if s.flags.startedUpstreamFinish then s
    else
      var t := s.(flags := s.flags.(startedUpstreamFinish := true));
      Issue(t, s.outstanding.(upstreamFinish := s.outstanding.upstreamFinish + 1), UpstreamFinish)
  }

  /** The upstream status replaces an OK status of the proxy. */
  function StartDownstreamFinish(s: State, status: Status): State {
    if s.flags.sentDownstreamFinish then s
    else
      var upstream := s.flags.statusFromUpstream;
      var sent := if status.StatusOk? && upstream.Some? then upstream.value else status;
      s.(flags := s.flags.(sentDownstreamFinish := true), log := s.log + [Finished(status, sent)])
  }

  // ---------- events

  datatype Event =
    | CallDone(ok: bool)
    | RestOfCallRuns
    | MetadataRead(ok: bool)
    | RestOfMetadataRuns
    | MetadataSent(ok: bool)
    | ClientMessageArrives(msg: Message)
    | ClientMessage(last: bool)
    | ClientEnd(status: Status)
    | WriteDone(ok: bool)
    | WritesDoneDone(ok: bool)
    | UpstreamMessageArrives(msg: Message)
    | UpstreamMessage
    | UpstreamEnd
    | ForwardDone(ok: bool)
    | FinishDone(upstream: Status)
    | CancelRequested

  /** An event completes an outstanding operation, or is a cancellation that was registered. A read
      first puts its message into the buffer, and completes later. */
  predicate Enabled(s: State, e: Event) {
    var w, b := s.outstanding, s.buffers;
    match e
    case CallDone(_) => w.call > 0
    case RestOfCallRuns => w.restOfCall > 0
    case MetadataRead(_) => w.readMetadata > 0
    case RestOfMetadataRuns => w.restOfMetadata > 0
    case MetadataSent(_) => w.sendMetadata > 0
    case ClientMessageArrives(_) => w.downstreamRead > b.requestsIn
    case ClientMessage(_) => w.downstreamRead > 0 && b.requestsIn > 0
    case ClientEnd(_) => w.downstreamRead > b.requestsIn
    case WriteDone(_) => w.upstreamWrite > 0
    case WritesDoneDone(_) => w.writesDone > 0
    case UpstreamMessageArrives(_) => w.upstreamRead > b.responsesIn
    case UpstreamMessage => w.upstreamRead > 0 && b.responsesIn > 0
    case UpstreamEnd => w.upstreamRead > b.responsesIn
    case ForwardDone(_) => w.downstreamWrite > 0
    case FinishDone(_) => w.upstreamFinish > 0
    case CancelRequested => s.flags.cancelRegistered
  }

  /** The work left when an event has completed its operation. */
  function Taken(s: State, e: Event): Work
    requires Enabled(s, e)
  {
    var w := s.outstanding;
    match e
    case CallDone(_) => w.(call := w.call - 1)
    case RestOfCallRuns => w.(restOfCall := w.restOfCall - 1)
    case MetadataRead(_) => w.(readMetadata := w.readMetadata - 1)
    case RestOfMetadataRuns => w.(restOfMetadata := w.restOfMetadata - 1)
    case MetadataSent(_) => w.(sendMetadata := w.sendMetadata - 1)
    case ClientMessageArrives(_) => w
    case ClientMessage(_) => w.(downstreamRead := w.downstreamRead - 1)
    case ClientEnd(_) => w.(downstreamRead := w.downstreamRead - 1)
    case WriteDone(_) => w.(upstreamWrite := w.upstreamWrite - 1)
    case WritesDoneDone(_) => w.(writesDone := w.writesDone - 1)
    case UpstreamMessageArrives(_) => w
    case UpstreamMessage => w.(upstreamRead := w.upstreamRead - 1)
    case UpstreamEnd => w.(upstreamRead := w.upstreamRead - 1)
    case ForwardDone(_) => w.(downstreamWrite := w.downstreamWrite - 1)
    case FinishDone(_) => w.(upstreamFinish := w.upstreamFinish - 1)
    case CancelRequested => w
  }

  /** The buffers when an event has completed its operation. */
  function Passed(s: State, e: Event): Buffers
    requires Enabled(s, e)
  {
    var b := s.buffers;
    match e
    case ClientMessageArrives(msg) => b.(toUpstream := msg, requestsIn := b.requestsIn + 1)
    case ClientMessage(_) => b.(requestsIn := b.requestsIn - 1)
    case WriteDone(_) => b.(toUpstream := CLEARED)
    case UpstreamMessageArrives(msg) => b.(toClient := msg, responsesIn := b.responsesIn + 1)
    case UpstreamMessage => b.(responsesIn := b.responsesIn - 1)
    case _ => b
  }

  function Callback(s: State, e: Event): State {
    match e
    case ClientMessageArrives(msg) => s.(traffic := s.traffic.(clientRead := s.traffic.clientRead + [msg]))
    case UpstreamMessageArrives(msg) => s.(traffic := s.traffic.(upstreamRead := s.traffic.upstreamRead + [msg]))
    case CallDone(ok) =>
      if !ok then StartDownstreamFinish(s, UNAVAILABLE)
      else
        var t := StartUpstreamReadInitialMetadata(s);
        t.(outstanding := t.outstanding.(restOfCall := t.outstanding.restOfCall + 1))
    case RestOfCallRuns => StartDownstreamReadMessage(s)
    case MetadataRead(ok) =>
      if !ok then StartDownstreamFinish(s, UNKNOWN)
      else
        var t := StartDownstreamWriteInitialMetadata(s);
        t.(outstanding := t.outstanding.(restOfMetadata := t.outstanding.restOfMetadata + 1))
    case RestOfMetadataRuns => StartUpstreamReadMessage(s)
    case MetadataSent(ok) => if ok then s else StartDownstreamFinish(s, UNKNOWN)
    case ClientMessage(last) =>
      var t := s.(traffic := s.traffic.(
                    messageAfterLast := s.traffic.messageAfterLast || s.traffic.lastSeen,
                    lastSeen := s.traffic.lastSeen || last));
      StartUpstreamWriteMessage(t, last)
    case ClientEnd(status) => StartUpstreamWritesDone(s, status)
    case WriteDone(ok) => if ok then StartDownstreamReadMessage(s) else StartUpstreamFinish(s)
    case WritesDoneDone(ok) =>
      if !ok then StartUpstreamFinish(s)
      else if s.flags.halfCloseStatus.StatusOk? then s
      else StartDownstreamFinish(s, s.flags.halfCloseStatus)
    case UpstreamMessage => StartDownstreamWriteMessage(s)
    case UpstreamEnd => StartUpstreamFinish(s)
    case ForwardDone(ok) => if ok then StartUpstreamReadMessage(s) else StartDownstreamFinish(s, UNKNOWN)
    case FinishDone(upstream) =>
      StartDownstreamFinish(s.(flags := s.flags.(statusFromUpstream := Some(upstream))), StatusOk)
    case CancelRequested => StartUpstreamFinish(s.(flags := s.flags.(cancelRegistered := false)))
  }

  function Apply(s: State, e: Event): State
    requires Enabled(s, e)
  {
    Callback(s.(outstanding := Taken(s, e), buffers := Passed(s, e)), e)
  }

  /** After Start: the upstream call is outstanding. */
  function Initial(): State {
    State(Flags(false, false, false, false, StatusOk, None), Work(1, 0, 0, 0, 0, 0, 0, 0, 0, 0, 0),
          Buffers(CLEARED, 0, CLEARED, 0), Traffic([], [], [], [], false, false), [Started(Call)])
  }

  predicate Legal(s: State, es: seq<Event>)
    decreases |es|
  {
    es == [] || (Enabled(s, es[0]) && Legal(Apply(s, es[0]), es[1..]))
  }

  function Run(s: State, es: seq<Event>): State
    requires Legal(s, es)
    decreases |es|
  {
    if es == [] then s else Run(Apply(s, es[0]), es[1..])
  }

  // ---------- invariants

  /** The work of the response side: at most one of these is outstanding. */
  function ResponseWork(w: Work): nat {
    w.call + w.readMetadata + w.restOfMetadata + w.upstreamRead + w.downstreamWrite
  }

  /** The work of the request side: at most one of these is outstanding. */
  function RequestWork(w: Work): nat {
    w.call + w.restOfCall + w.downstreamRead + w.upstreamWrite + w.writesDone
  }

  /** At most one operation of each side is outstanding. The upstream finish is outstanding from
      its start until its status arrives, which ends the flow; until the flow ends the response
      side or the upstream finish is at work. */
  ghost predicate NotStuck(s: State) {
    var w := s.outstanding;
    && ResponseWork(w) <= 1 && RequestWork(w) <= 1 && w.upstreamFinish <= 1 && w.sendMetadata <= 1
    && (w.call + w.readMetadata > 0 ==> w.sendMetadata == 0)
    && (s.flags.startedUpstreamFinish <==> w.upstreamFinish > 0 || s.flags.statusFromUpstream.Some?)
    && (s.flags.statusFromUpstream.Some? ==> s.flags.sentDownstreamFinish && w.upstreamFinish == 0)
    && (!s.flags.sentDownstreamFinish ==> ResponseWork(w) + w.upstreamFinish >= 1)
  }

  /** A message that arrived is in its buffer until it is written; otherwise everything that arrived
      has been written, unless the side has stopped. */
  ghost predicate InOrder(s: State) {
    var w, b, t := s.outstanding, s.buffers, s.traffic;
    && b.requestsIn <= w.downstreamRead && b.responsesIn <= w.upstreamRead
    && t.upstreamWritten <= t.clientRead && t.clientWritten <= t.upstreamRead
    && (b.requestsIn > 0 ==> t.clientRead == t.upstreamWritten + [b.toUpstream])
    && (b.requestsIn == 0 && RequestWork(w) > 0 ==> t.clientRead == t.upstreamWritten)
    && (b.responsesIn > 0 ==> t.upstreamRead == t.clientWritten + [b.toClient])
    && (b.responsesIn == 0 && ResponseWork(w) > 0 ==> t.upstreamRead == t.clientWritten)
  }

  // ---------- groups of events, one lemma each below

  predicate OpensCall(e: Event) {
    e.CallDone? || e.RestOfCallRuns?
  }

  predicate MovesMetadata(e: Event) {
    e.MetadataRead? || e.RestOfMetadataRuns? || e.MetadataSent?
  }

  predicate Arrives(e: Event) {
    e.ClientMessageArrives? || e.UpstreamMessageArrives?
  }

  predicate FromClient(e: Event) {
    e.ClientMessage? || e.ClientEnd?
  }

  predicate EndsWrite(e: Event) {
    e.WriteDone? || e.WritesDoneDone?
  }

  predicate MovesResponse(e: Event) {
    e.UpstreamMessage? || e.UpstreamEnd? || e.ForwardDone?
  }

  predicate EndsCall(e: Event) {
    e.FinishDone? || e.CancelRequested?
  }

  lemma NotStuckOpening(s: State, e: Event)
    requires NotStuck(s) && Enabled(s, e) && OpensCall(e)
    ensures NotStuck(Apply(s, e))
  {
  }

  lemma NotStuckMetadata(s: State, e: Event)
    requires NotStuck(s) && Enabled(s, e) && MovesMetadata(e)
    ensures NotStuck(Apply(s, e))
  {
  }

  lemma NotStuckArrival(s: State, e: Event)
    requires NotStuck(s) && Enabled(s, e) && Arrives(e)
    ensures NotStuck(Apply(s, e))
  {
  }

  lemma NotStuckClient(s: State, e: Event)
    requires NotStuck(s) && Enabled(s, e) && FromClient(e)
    ensures NotStuck(Apply(s, e))
  {
  }

  lemma NotStuckWrites(s: State, e: Event)
    requires NotStuck(s) && Enabled(s, e) && EndsWrite(e)
    ensures NotStuck(Apply(s, e))
  {
  }

  lemma NotStuckResponse(s: State, e: Event)
    requires NotStuck(s) && Enabled(s, e) && MovesResponse(e)
    ensures NotStuck(Apply(s, e))
  {
  }

  lemma NotStuckEnd(s: State, e: Event)
    requires NotStuck(s) && Enabled(s, e) && EndsCall(e)
    ensures NotStuck(Apply(s, e))
  {
  }

  /** Every event keeps that the flow is not stuck. */
  lemma NotStuckKept(s: State, e: Event)
    requires NotStuck(s) && Enabled(s, e)
    ensures NotStuck(Apply(s, e))
  {
    if OpensCall(e) {
      NotStuckOpening(s, e);
    } else if MovesMetadata(e) {
      NotStuckMetadata(s, e);
    } else if Arrives(e) {
      NotStuckArrival(s, e);
    } else if FromClient(e) {
      NotStuckClient(s, e);
    } else if EndsWrite(e) {
      NotStuckWrites(s, e);
    } else if MovesResponse(e) {
      NotStuckResponse(s, e);
    } else {
      NotStuckEnd(s, e);
    }
  }

  lemma InOrderOpening(s: State, e: Event)
    requires NotStuck(s) && InOrder(s) && Enabled(s, e) && OpensCall(e)
    ensures InOrder(Apply(s, e))
  {
  }

  lemma InOrderMetadata(s: State, e: Event)
    requires NotStuck(s) && InOrder(s) && Enabled(s, e) && MovesMetadata(e)
    ensures InOrder(Apply(s, e))
  {
  }

  lemma InOrderArrival(s: State, e: Event)
    requires NotStuck(s) && InOrder(s) && Enabled(s, e) && Arrives(e)
    ensures InOrder(Apply(s, e))
  {
  }

  lemma InOrderClient(s: State, e: Event)
    requires NotStuck(s) && InOrder(s) && Enabled(s, e) && FromClient(e)
    ensures InOrder(Apply(s, e))
  {
  }

  lemma InOrderWrites(s: State, e: Event)
    requires NotStuck(s) && InOrder(s) && Enabled(s, e) && EndsWrite(e)
    ensures InOrder(Apply(s, e))
  {
  }

  lemma InOrderResponse(s: State, e: Event)
    requires NotStuck(s) && InOrder(s) && Enabled(s, e) && MovesResponse(e)
    ensures InOrder(Apply(s, e))
  {
  }

  lemma InOrderEnd(s: State, e: Event)
    requires NotStuck(s) && InOrder(s) && Enabled(s, e) && EndsCall(e)
    ensures InOrder(Apply(s, e))
  {
  }

  /** Every event keeps the messages in order: what a write sends is the message that was read,
      since at most one operation of each side uses its buffer. */
  lemma InOrderKept(s: State, e: Event)
    requires NotStuck(s) && InOrder(s) && Enabled(s, e)
    ensures InOrder(Apply(s, e))
  {
    if OpensCall(e) {
      InOrderOpening(s, e);
    } else if MovesMetadata(e) {
      InOrderMetadata(s, e);
    } else if Arrives(e) {
      InOrderArrival(s, e);
    } else if FromClient(e) {
      InOrderClient(s, e);
    } else if EndsWrite(e) {
      InOrderWrites(s, e);
    } else if MovesResponse(e) {
      InOrderResponse(s, e);
    } else {
      InOrderEnd(s, e);
    }
  }

  // ---------- the log

  /** What an observer of the log remembers. */
  datatype Monitor = Monitor(halfClosed: bool, finishing: bool, finished: bool, metadataSent: bool)

  predicate HalfCloses(a: Action) {
    a == Started(UpstreamWritesDone) || a == StartedWrite(true)
  }

  /** What must not start once the client has its answer. */
  predicate NeedsClient(a: Action) {
    a == Started(DownstreamRead) || a == Started(SendInitialMetadata) || a == Started(DownstreamWrite)
    || a == Started(ReadInitialMetadata) || a == Started(UpstreamRead)
  }

  function Observe(m: Monitor, a: Action): Monitor {
    Monitor(m.halfClosed || HalfCloses(a), m.finishing || a == Started(UpstreamFinish),
            m.finished || a.Finished?, m.metadataSent || a == Started(SendInitialMetadata))
  }

  /** strict also forbids a write after the half-close. */
  predicate Allowed(m: Monitor, a: Action, strict: bool) {
    && (HalfCloses(a) ==> !m.halfClosed)
    && (a == Started(UpstreamFinish) ==> !m.finishing)
    && (a.Finished? || NeedsClient(a) ==> !m.finished)
    && (a == Started(SendInitialMetadata) ==> !m.metadataSent)
    && (a == Started(DownstreamWrite) ==> m.metadataSent)
    && (strict && a.StartedWrite? ==> !m.halfClosed)
  }

  function Watch(log: seq<Action>, strict: bool): Option<Monitor> {
    if log == [] then Some(Monitor(false, false, false, false))
    else
      var m := Watch(log[..|log| - 1], strict);
      if m.None? || !Allowed(m.value, log[|log| - 1], strict) then None
      else Some(Observe(m.value, log[|log| - 1]))
  }

  lemma WatchOneMore(log: seq<Action>, a: Action, strict: bool)
    requires Watch(log, strict).Some? && Allowed(Watch(log, strict).value, a, strict)
    ensures Watch(log + [a], strict) == Some(Observe(Watch(log, strict).value, a))
  {
    assert (log + [a])[..|log|] == log;
  }

  lemma {:induction false} WatchLoosely(log: seq<Action>)
    requires Watch(log, true).Some?
    ensures Watch(log, false) == Watch(log, true)
  {
    if log != [] { WatchLoosely(log[..|log| - 1]); }
  }

  /** The flags are what the log shows. */
  ghost predicate FlagsShow(m: Monitor, s: State) {
    var f, w, t := s.flags, s.outstanding, s.traffic;
    && m.halfClosed == f.sentUpstreamWritesDone
    && m.finishing == f.startedUpstreamFinish
    && m.finished == f.sentDownstreamFinish
    && (m.metadataSent ==> w.call + w.readMetadata == 0)
    && (w.restOfMetadata + w.upstreamRead + w.downstreamWrite > 0 && !f.sentDownstreamFinish ==> m.metadataSent)
    && (t.lastSeen ==> f.sentUpstreamWritesDone)
    && (f.sentUpstreamWritesDone && !t.lastSeen ==> w.call + w.restOfCall + w.downstreamRead + w.upstreamWrite == 0)
  }

  /** The log is as the observer allows, strictly so unless the client sent a message after its
      last one. */
  ghost predicate Logged(s: State) {
    var m := Watch(s.log, !s.traffic.messageAfterLast);
    m.Some? && FlagsShow(m.value, s)
  }

  /** The observer allows a transition: it adds at most one action to the log, an allowed one. */
  ghost predicate Shows(m: Monitor, s: State, t: State) {
    && (s.traffic.messageAfterLast ==> t.traffic.messageAfterLast)
    && (t.log == s.log ==> FlagsShow(m, t))
    && (t.log != s.log ==>
          && t.log != []
          && var a := t.log[|t.log| - 1];
          && t.log == s.log + [a]
          && Allowed(m, a, !t.traffic.messageAfterLast) && FlagsShow(Observe(m, a), t))
  }

  lemma ShowsStep(m: Monitor, s: State, t: State, a: Action)
    requires t.log == s.log + [a] && Allowed(m, a, !t.traffic.messageAfterLast) && FlagsShow(Observe(m, a), t)
    requires s.traffic.messageAfterLast ==> t.traffic.messageAfterLast
    ensures Shows(m, s, t)
  {
  }

  lemma ShowsOpening(m: Monitor, s: State, e: Event)
    requires NotStuck(s) && FlagsShow(m, s) && Enabled(s, e) && OpensCall(e)
    ensures Shows(m, s, Apply(s, e))
  {
  }

  lemma ShowsMetadata(m: Monitor, s: State, e: Event)
    requires NotStuck(s) && FlagsShow(m, s) && Enabled(s, e) && MovesMetadata(e)
    ensures Shows(m, s, Apply(s, e))
  {
    var t := Apply(s, e);
    if s.flags.sentDownstreamFinish || e == MetadataSent(true) {
      assert t.log == s.log;
    } else if e == MetadataRead(true) {
      ShowsStep(m, s, t, Started(SendInitialMetadata));
    } else if e == RestOfMetadataRuns {
      ShowsStep(m, s, t, Started(UpstreamRead));
    } else {
      ShowsStep(m, s, t, Finished(UNKNOWN, UNKNOWN));
    }
  }

  lemma ShowsArrival(m: Monitor, s: State, e: Event)
    requires NotStuck(s) && FlagsShow(m, s) && Enabled(s, e) && Arrives(e)
    ensures Shows(m, s, Apply(s, e))
  {
  }

  lemma ShowsClient(m: Monitor, s: State, e: Event)
    requires NotStuck(s) && FlagsShow(m, s) && Enabled(s, e) && FromClient(e)
    ensures Shows(m, s, Apply(s, e))
  {
    var t := Apply(s, e);
    if e.ClientMessage? && !(e.last && s.flags.sentUpstreamWritesDone) {
      ShowsStep(m, s, t, StartedWrite(e.last));
    } else if e.ClientEnd? && !s.flags.sentUpstreamWritesDone {
      ShowsStep(m, s, t, Started(UpstreamWritesDone));
    } else {
      assert t.log == s.log;
    }
  }

  lemma ShowsWrite(m: Monitor, s: State, ok: bool)
    requires NotStuck(s) && FlagsShow(m, s) && Enabled(s, WriteDone(ok))
    ensures Shows(m, s, Apply(s, WriteDone(ok)))
  {
    var t := Apply(s, WriteDone(ok));
    if ok {
      if !s.flags.sentDownstreamFinish { ShowsStep(m, s, t, Started(DownstreamRead)); }
    } else {
      if !s.flags.startedUpstreamFinish { ShowsStep(m, s, t, Started(UpstreamFinish)); }
    }
  }

  lemma ShowsHalfClose(m: Monitor, s: State, ok: bool)
    requires NotStuck(s) && FlagsShow(m, s) && Enabled(s, WritesDoneDone(ok))
    ensures Shows(m, s, Apply(s, WritesDoneDone(ok)))
  {
    var t, status := Apply(s, WritesDoneDone(ok)), s.flags.halfCloseStatus;
    if !ok {
      if !s.flags.startedUpstreamFinish { ShowsStep(m, s, t, Started(UpstreamFinish)); }
    } else if status.StatusError? && !s.flags.sentDownstreamFinish {
      ShowsStep(m, s, t, Finished(status, status));
    }
  }

  lemma ShowsResponse(m: Monitor, s: State, e: Event)
    requires NotStuck(s) && FlagsShow(m, s) && Enabled(s, e) && MovesResponse(e)
    ensures Shows(m, s, Apply(s, e))
  {
    var t := Apply(s, e);
    if e == UpstreamEnd {
      if !s.flags.startedUpstreamFinish { ShowsStep(m, s, t, Started(UpstreamFinish)); }
    } else if s.flags.sentDownstreamFinish {
      assert t.log == s.log;
    } else if e == UpstreamMessage {
      ShowsStep(m, s, t, Started(DownstreamWrite));
    } else if e == ForwardDone(true) {
      ShowsStep(m, s, t, Started(UpstreamRead));
    } else {
      ShowsStep(m, s, t, Finished(UNKNOWN, UNKNOWN));
    }
  }

  lemma ShowsEnd(m: Monitor, s: State, e: Event)
    requires NotStuck(s) && FlagsShow(m, s) && Enabled(s, e) && EndsCall(e)
    ensures Shows(m, s, Apply(s, e))
  {
  }

  lemma ShowsAny(m: Monitor, s: State, e: Event)
    requires NotStuck(s) && FlagsShow(m, s) && Enabled(s, e)
    ensures Shows(m, s, Apply(s, e))
  {
    if OpensCall(e) {
      ShowsOpening(m, s, e);
    } else if MovesMetadata(e) {
      ShowsMetadata(m, s, e);
    } else if Arrives(e) {
      ShowsArrival(m, s, e);
    } else if FromClient(e) {
      ShowsClient(m, s, e);
    } else if e.WriteDone? {
      ShowsWrite(m, s, e.ok);
    } else if e.WritesDoneDone? {
      ShowsHalfClose(m, s, e.ok);
    } else if MovesResponse(e) {
      ShowsResponse(m, s, e);
    } else {
      ShowsEnd(m, s, e);
    }
  }

  lemma LoggedKept(s: State, e: Event)
    requires NotStuck(s) && Logged(s) && Enabled(s, e)
    ensures Logged(Apply(s, e))
  {
    var strict, t := !s.traffic.messageAfterLast, Apply(s, e);
    var m := Watch(s.log, strict).value;
    ShowsAny(m, s, e);
    if strict && t.traffic.messageAfterLast { WatchLoosely(s.log); }
    if t.log != s.log { WatchOneMore(s.log, t.log[|t.log| - 1], !t.traffic.messageAfterLast); }
  }

  // ---------- what an allowed log looks like

  /** The monitor has noticed every action of the log. */
  ghost predicate Noticed(m: Monitor, a: Action) {
    && (HalfCloses(a) ==> m.halfClosed)
    && (a == Started(UpstreamFinish) ==> m.finishing)
    && (a.Finished? ==> m.finished)
    && (a == Started(SendInitialMetadata) ==> m.metadataSent)
  }

  /** What may follow what: the half-close, the upstream finish, the metadata and the answer to
      the client occur once; after the answer nothing that needs the client starts. */
  ghost predicate MayFollow(a: Action, b: Action, strict: bool) {
    && !(HalfCloses(a) && HalfCloses(b))
    && !(a == Started(UpstreamFinish) && b == Started(UpstreamFinish))
    && !(a == Started(SendInitialMetadata) && b == Started(SendInitialMetadata))
    && (a.Finished? ==> !b.Finished? && !NeedsClient(b))
    && (strict && HalfCloses(a) ==> !b.StartedWrite?)
  }

  lemma {:induction false} WatchMeans(log: seq<Action>, strict: bool)
    requires Watch(log, strict).Some?
    ensures forall i :: 0 <= i < |log| ==> Noticed(Watch(log, strict).value, log[i])
    ensures forall i, j :: 0 <= i < j < |log| ==> MayFollow(log[i], log[j], strict)
    ensures Watch(log, strict).value.metadataSent ==> Started(SendInitialMetadata) in log
    ensures Watch(log, strict).value.finished ==> exists i :: 0 <= i < |log| && log[i].Finished?
    ensures forall j :: 0 <= j < |log| && log[j] == Started(DownstreamWrite) ==>
              Started(SendInitialMetadata) in log[..j]
  {
    if log != [] {
      var front, a := log[..|log| - 1], log[|log| - 1];
      WatchMeans(front, strict);
      assert log == front + [a];
      assert forall j :: 0 <= j < |front| ==> log[..j] == front[..j];
      if a.Finished? {
        assert log[|log| - 1].Finished?;
      } else if Watch(log, strict).value.finished {
        var i :| 0 <= i < |front| && front[i].Finished?;
        assert log[i].Finished?;
      }
    }
  }

  /** The status sent to the client: the upstream's when the proxy has no error of its own. */
  ghost predicate Truthful(s: State, a: Action) {
    a.Finished? ==>
      if a.esp.StatusOk? then s.flags.statusFromUpstream == Some(a.sent) else a.sent == a.esp
  }

  ghost predicate AllTruthful(s: State) {
    forall i :: 0 <= i < |s.log| ==> Truthful(s, s.log[i])
  }

  lemma TruthfulOpening(s: State, e: Event)
    requires NotStuck(s) && AllTruthful(s) && Enabled(s, e) && OpensCall(e)
    ensures AllTruthful(Apply(s, e))
  {
  }

  lemma TruthfulMetadata(s: State, e: Event)
    requires NotStuck(s) && AllTruthful(s) && Enabled(s, e) && MovesMetadata(e)
    ensures AllTruthful(Apply(s, e))
  {
  }

  lemma TruthfulArrival(s: State, e: Event)
    requires NotStuck(s) && AllTruthful(s) && Enabled(s, e) && Arrives(e)
    ensures AllTruthful(Apply(s, e))
  {
  }

  lemma TruthfulClient(s: State, e: Event)
    requires NotStuck(s) && AllTruthful(s) && Enabled(s, e) && FromClient(e)
    ensures AllTruthful(Apply(s, e))
  {
  }

  lemma TruthfulWrites(s: State, e: Event)
    requires NotStuck(s) && AllTruthful(s) && Enabled(s, e) && EndsWrite(e)
    ensures AllTruthful(Apply(s, e))
  {
  }

  lemma TruthfulResponse(s: State, e: Event)
    requires NotStuck(s) && AllTruthful(s) && Enabled(s, e) && MovesResponse(e)
    ensures AllTruthful(Apply(s, e))
  {
  }

  lemma TruthfulEnd(s: State, e: Event)
    requires NotStuck(s) && AllTruthful(s) && Enabled(s, e) && EndsCall(e)
    ensures AllTruthful(Apply(s, e))
  {
  }

  lemma TruthfulKept(s: State, e: Event)
    requires NotStuck(s) && AllTruthful(s) && Enabled(s, e)
    ensures AllTruthful(Apply(s, e))
  {
    if OpensCall(e) {
      TruthfulOpening(s, e);
    } else if MovesMetadata(e) {
      TruthfulMetadata(s, e);
    } else if Arrives(e) {
      TruthfulArrival(s, e);
    } else if FromClient(e) {
      TruthfulClient(s, e);
    } else if EndsWrite(e) {
      TruthfulWrites(s, e);
    } else if MovesResponse(e) {
      TruthfulResponse(s, e);
    } else {
      TruthfulEnd(s, e);
    }
  }

  // ---------- every run

  ghost predicate Inv(s: State) {
    NotStuck(s) && InOrder(s) && Logged(s) && AllTruthful(s)
  }

  lemma InvKept(s: State, e: Event)
    requires Inv(s) && Enabled(s, e)
    ensures Inv(Apply(s, e))
  {
    NotStuckKept(s, e);
    InOrderKept(s, e);
    LoggedKept(s, e);
    TruthfulKept(s, e);
  }

  lemma {:induction false} InvOverRun(s: State, es: seq<Event>)
    requires Inv(s) && Legal(s, es)
    ensures Inv(Run(s, es))
    decreases |es|
  {
    if es != [] {
      InvKept(s, es[0]);
      InvOverRun(Apply(s, es[0]), es[1..]);
    }
  }

  lemma FirstWatch()
    ensures Watch([Started(Call)], true) == Some(Monitor(false, false, false, false))
  {
    WatchOneMore([], Started(Call), true);
    assert [] + [Started(Call)] == [Started(Call)];
  }

  lemma InvInitially()
    ensures Inv(Initial())
  {
    FirstWatch();
    var s := Initial();
    assert NotStuck(s);
    assert InOrder(s);
    assert Watch(s.log, !s.traffic.messageAfterLast) == Some(Monitor(false, false, false, false));
    assert FlagsShow(Monitor(false, false, false, false), s);
    assert AllTruthful(s);
  }

  lemma InvFromStart(es: seq<Event>)
    requires Legal(Initial(), es)
    ensures Inv(Run(Initial(), es))
  {
    InvInitially();
    InvOverRun(Initial(), es);
  }

  ghost predicate OnlyAnswer(log: seq<Action>, i: nat) {
    i < |log| && log[i].Finished? && forall j :: 0 <= j < |log| && j != i ==> !log[j].Finished?
  }

  lemma AnsweredOnce(log: seq<Action>, strict: bool) returns (i: nat)
    requires Watch(log, strict).Some? && Watch(log, strict).value.finished
    ensures OnlyAnswer(log, i)
  {
    WatchMeans(log, strict);
    i :| 0 <= i < |log| && log[i].Finished?;
    forall j | 0 <= j < |log| && j != i ensures !log[j].Finished? {
      if j < i {
        assert MayFollow(log[j], log[i], strict);
      } else {
        assert MayFollow(log[i], log[j], strict);
      }
    }
  }

  /** No flow gets stuck: until the client is answered, something whose completion moves the flow
      on is outstanding; a flow with nothing outstanding has answered, once. */
  lemma NeverStuck(es: seq<Event>)
    requires Legal(Initial(), es)
    ensures var s := Run(Initial(), es);
            !s.flags.sentDownstreamFinish ==> ResponseWork(s.outstanding) + s.outstanding.upstreamFinish >= 1
    ensures var s := Run(Initial(), es);
            s.outstanding == Work(0, 0, 0, 0, 0, 0, 0, 0, 0, 0, 0) ==> exists i: nat :: OnlyAnswer(s.log, i)
  {
    InvFromStart(es);
    var s := Run(Initial(), es);
    if s.flags.sentDownstreamFinish {
      var i := AnsweredOnce(s.log, !s.traffic.messageAfterLast);
    }
  }

  /** Over every run, the actions of the flow follow each other as they may, message writes come
      after the metadata, and at most one operation of each side is outstanding. */
  lemma ActionsAreOrdered(es: seq<Event>)
    requires Legal(Initial(), es)
    ensures var s := Run(Initial(), es);
            && (forall i, j :: 0 <= i < j < |s.log| ==> MayFollow(s.log[i], s.log[j], !s.traffic.messageAfterLast))
            && (forall j :: 0 <= j < |s.log| && s.log[j] == Started(DownstreamWrite)
                            ==> Started(SendInitialMetadata) in s.log[..j])
            && RequestWork(s.outstanding) <= 1 && ResponseWork(s.outstanding) <= 1
            && s.outstanding.upstreamFinish <= 1
  {
    InvFromStart(es);
    WatchMeans(Run(Initial(), es).log, !Run(Initial(), es).traffic.messageAfterLast);
  }

  // ---------- when the client's last message is its last

  /** The last flags of the messages that the client side handed over. */
  function Lasts(es: seq<Event>): seq<bool> {
    if es == [] then []
    else if es[0].ClientMessage? then [es[0].last] + Lasts(es[1..])
    else Lasts(es[1..])
  }

  /** A message came after one that was flagged as the last. */
  ghost predicate MoreAfterLast(lasts: seq<bool>) {
    exists i :: 0 <= i < |lasts| - 1 && lasts[i]
  }

  lemma MoreAfterLastStep(last: bool, rest: seq<bool>)
    ensures MoreAfterLast([last] + rest) <==> (last && rest != []) || MoreAfterLast(rest)
  {
    var all := [last] + rest;
    if last && rest != [] {
      assert all[0];
    } else if MoreAfterLast(rest) {
      var i :| 0 <= i < |rest| - 1 && rest[i];
      assert all[i + 1];
    } else {
      assert forall i :: 0 < i < |all| ==> all[i] == rest[i - 1];
    }
  }

  lemma StepSeesLast(s: State, e: Event)
    requires Enabled(s, e)
    ensures var t, u := s.traffic, Apply(s, e).traffic;
            && u.lastSeen == (t.lastSeen || (e.ClientMessage? && e.last))
            && u.messageAfterLast == (t.messageAfterLast || (e.ClientMessage? && t.lastSeen))
  {
  }

  /** The flag of the state says what the events say. */
  lemma {:induction false} RunSeesLast(s: State, es: seq<Event>)
    requires Legal(s, es)
    ensures Run(s, es).traffic.messageAfterLast <==>
            s.traffic.messageAfterLast || (s.traffic.lastSeen && Lasts(es) != []) || MoreAfterLast(Lasts(es))
    decreases |es|
  {
    if es != [] {
      StepSeesLast(s, es[0]);
      RunSeesLast(Apply(s, es[0]), es[1..]);
      if es[0].ClientMessage? { MoreAfterLastStep(es[0].last, Lasts(es[1..])); }
    }
  }

  /** If the client side hands over no message after a last one, nothing is written upstream after
      the half-close. */
  lemma NoWriteAfterHalfClose(es: seq<Event>, i: nat, j: nat)
    requires Legal(Initial(), es) && !MoreAfterLast(Lasts(es))
    requires i < j < |Run(Initial(), es).log| && HalfCloses(Run(Initial(), es).log[i])
    ensures !Run(Initial(), es).log[j].StartedWrite?
  {
    RunSeesLast(Initial(), es);
    ActionsAreOrdered(es);
  }

  /** Over every run, messages are forwarded in order, none twice or invented, and the client is
      told OK only with the status that came from upstream. */
  lemma ForwardsFaithfully(es: seq<Event>)
    requires Legal(Initial(), es)
    ensures var s := Run(Initial(), es);
            && s.traffic.upstreamWritten <= s.traffic.clientRead
            && s.traffic.clientWritten <= s.traffic.upstreamRead
            && forall i :: 0 <= i < |s.log| ==> Truthful(s, s.log[i])
  {
    InvFromStart(es);
    FaithfulByInv(Run(Initial(), es));
  }

  lemma FaithfulByInv(s: State)
    requires Inv(s)
    ensures s.traffic.upstreamWritten <= s.traffic.clientRead && s.traffic.clientWritten <= s.traffic.upstreamRead
    ensures forall i :: 0 <= i < |s.log| ==> Truthful(s, s.log[i])
  {
  }
}
