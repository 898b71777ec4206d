/** Detecting, throttling and fetching a new rollout, as in config_manager.cc. */
module ConfigManager {
  import opened Wrappers

  /** A config id with its traffic percentage; what the callback of one fetch captures. */
  datatype Share = Share(configId: string, percentage: int)

  datatype Rollout = Rollout(id: string, shares: seq<Share>)

  /** A config text that arrived, and the fetch that it answers. */
  datatype Fetched = Fetched(share: Share, text: string)

  /** The fetches of one rollout: those still out, those that failed, those that brought a config. */
  datatype Job = Job(
    rollout: Rollout,
    out: multiset<Share>,
    failed: multiset<Share>,
    configs: seq<Fetched>,
    finished: nat)

  /** A set of configs handed over for deployment. */
  datatype Deployment = Deployment(job: nat, configs: seq<Fetched>)

  datatype Timer = Timer(clock: int, running: bool, nextWindow: int, firings: seq<int>)

  datatype State = State(timer: Timer, currentId: string, calls: nat, jobs: seq<Job>, deployed: seq<Deployment>)

  function Shares(configs: seq<Fetched>): (r: seq<Share>)
    ensures |r| == |configs| && forall i :: 0 <= i < |r| ==> r[i] == configs[i].share
  {
    seq(|configs|, i requires 0 <= i < |configs| => configs[i].share)
  }

  // ---------- the callbacks

  datatype Event =
    | Tick(to: int)
    | Latest(id: string, now: int)
    | Fire
    | CallFailed
    | RolloutsListed(rollouts: seq<Rollout>)
    | ConfigFetched(job: nat, share: Share, text: Option<string>)

  /** A timer fires only while it runs; every call and every fetch answers once. Callers read the
      clock before they pass it. */
  predicate Enabled(s: State, e: Event) {
    match e
    case Tick(to) => s.timer.clock <= to
    case Latest(_, now) => now <= s.timer.clock
    case Fire => s.timer.running
    case CallFailed => s.calls > 0
    case RolloutsListed(_) => s.calls > 0
    case ConfigFetched(job, share, _) => job < |s.jobs| && share in s.jobs[job].out
  }

  function AfterLatest(s: State, id: string, now: int): State {
    if id == s.currentId || s.timer.running || now < s.timer.nextWindow then s
    else s.(timer := s.timer.(running := true))
  }

  function AfterFire(s: State, window: nat): State {
    var t := s.timer;
    s.(timer := Timer(t.clock, false, t.clock + window, t.firings + [t.clock]), calls := s.calls + 1)
  }

  function AfterList(s: State, rollouts: seq<Rollout>): State
    requires s.calls > 0
  {
    var s' := s.(calls := s.calls - 1);
    if rollouts == [] || s.currentId == rollouts[0].id || rollouts[0].shares == [] then s'
    else s'.(jobs := s.jobs + [Job(rollouts[0], multiset(rollouts[0].shares), multiset{}, [], 0)])
  }

  /** The job after one of its fetches answered. */
  function Answered(j: Job, share: Share, text: Option<string>): Job {
    var j' := j.(out := j.out - multiset{share}, finished := j.finished + 1);
    if text.Some? then j'.(configs := j.configs + [Fetched(share, text.value)])
    else j'.(failed := j.failed + multiset{share})
  }

  predicate Complete(j: Job) {
    j.finished == |j.rollout.shares|
  }

  predicate Deployable(j: Job) {
    Complete(j) && j.rollout.shares != [] && j.configs != [] && |j.rollout.shares| == |j.configs|
  }

  function AfterConfig(s: State, job: nat, share: Share, text: Option<string>): State
    requires job < |s.jobs|
  {
    var j := Answered(s.jobs[job], share, text);
    var s' := s.(jobs := s.jobs[job := j]);
    if Deployable(j) then
      s'.(deployed := s.deployed + [Deployment(job, j.configs)], currentId := j.rollout.id)
    else s'
  }

  function Next(s: State, e: Event, window: nat): State
    requires Enabled(s, e)
  {
    match e
    case Tick(to) => s.(timer := s.timer.(clock := to))
    case Latest(id, now) => AfterLatest(s, id, now)
    case Fire => AfterFire(s, window)
    case CallFailed => s.(calls := s.calls - 1)
    case RolloutsListed(rollouts) => AfterList(s, rollouts)
    case ConfigFetched(job, share, text) => AfterConfig(s, job, share, text)
  }

  predicate Legal(s: State, es: seq<Event>, window: nat)
    decreases |es|
  {
    es == [] || (Enabled(s, es[0]) && Legal(Next(s, es[0], window), es[1..], window))
  }

  function Run(s: State, es: seq<Event>, window: nat): State
    requires Legal(s, es, window)
    decreases |es|
  {
    if es == [] then s else Run(Next(s, es[0], window), es[1..], window)
  }

  function Initial(clock: int, nextWindow: int, currentId: string): State {
    State(Timer(clock, false, nextWindow, []), currentId, 0, [], [])
  }

  // ---------- throttling

  ghost predicate Apart(ts: seq<int>, window: nat) {
    forall i, j :: 0 <= i < j < |ts| ==> ts[i] + window <= ts[j]
  }

  /** The window is open whenever the timer runs. */
  ghost predicate Throttled(t: Timer, window: nat) {
    && Apart(t.firings, window)
    && (t.running ==> t.nextWindow <= t.clock)
    && (t.firings != [] ==> t.firings[|t.firings| - 1] + window == t.nextWindow)
  }

  lemma ThrottledKept(s: State, e: Event, window: nat)
    requires Throttled(s.timer, window) && Enabled(s, e)
    ensures Throttled(Next(s, e, window).timer, window)
  {
  }

  // ---------- the fan-in

  /** Nothing is lost: every share is out, failed, or brought a config. */
  ghost predicate Accounted(j: Job) {
    && j.out + j.failed + multiset(Shares(j.configs)) == multiset(j.rollout.shares)
    && j.finished == |j.failed| + |j.configs|
    && j.rollout.shares != []
  }

  lemma SharesAppend(configs: seq<Fetched>, f: Fetched)
    ensures multiset(Shares(configs + [f])) == multiset(Shares(configs)) + multiset{f.share}
  {
    assert Shares(configs + [f]) == Shares(configs) + [f.share];
  }

  lemma AccountedKept(j: Job, share: Share, text: Option<string>)
    requires Accounted(j) && share in j.out
    ensures Accounted(Answered(j, share, text))
  {
    if text.Some? {
      SharesAppend(j.configs, Fetched(share, text.value));
    }
  }

  /** A job is complete exactly when nothing is out, and deployable exactly when also nothing failed. */
  lemma CompleteMeansNothingOut(j: Job)
    requires Accounted(j)
    ensures Complete(j) <==> j.out == multiset{}
    ensures Deployable(j) <==> j.out == multiset{} && j.failed == multiset{}
    ensures Deployable(j) ==> multiset(Shares(j.configs)) == multiset(j.rollout.shares)
  {
    assert |j.out| + |j.failed| + |multiset(Shares(j.configs))| == |j.rollout.shares| by {
      assert |j.out + j.failed + multiset(Shares(j.configs))| == |multiset(j.rollout.shares)|;
    }
    assert |multiset(Shares(j.configs))| == |j.configs|;
    if j.failed == multiset{} && j.out == multiset{} {
      assert multiset(Shares(j.configs)) == multiset(j.rollout.shares);
    }
  }

  /** How often a job has been deployed. */
  function Times(deployed: seq<Deployment>, job: nat): nat {
    if deployed == [] then 0
    else Times(deployed[..|deployed| - 1], job) + (if deployed[|deployed| - 1].job == job then 1 else 0)
  }

  /** A job is deployed once when it is deployable and never otherwise. */
  ghost predicate DeployedOnce(s: State) {
    forall k: nat :: Times(s.deployed, k) == if k < |s.jobs| && Deployable(s.jobs[k]) then 1 else 0
  }

  ghost predicate AllAccounted(s: State) {
    forall k :: 0 <= k < |s.jobs| ==> Accounted(s.jobs[k])
  }

  /** The deployment is the whole rollout, in some order. */
  ghost predicate Whole(d: Deployment, rollout: Rollout) {
    multiset(Shares(d.configs)) == multiset(rollout.shares)
  }

  ghost predicate AllWhole(s: State) {
    forall i :: 0 <= i < |s.deployed| ==>
      s.deployed[i].job < |s.jobs| && Whole(s.deployed[i], s.jobs[s.deployed[i].job].rollout)
  }

  ghost predicate Inv(s: State) {
    AllAccounted(s) && DeployedOnce(s) && AllWhole(s)
  }

  /** An answer never reopens a job, and its job was not deployable before. */
  lemma AnswerChanges(j: Job, share: Share, text: Option<string>)
    requires Accounted(j) && share in j.out
    ensures !Deployable(j) && Accounted(Answered(j, share, text))
    ensures var j' := Answered(j, share, text);
            j'.rollout == j.rollout
            && (Deployable(j') ==> forall k :: Whole(Deployment(k, j'.configs), j.rollout))
  {
    AccountedKept(j, share, text);
    CompleteMeansNothingOut(j);
    CompleteMeansNothingOut(Answered(j, share, text));
  }

  lemma TimesAppend(deployed: seq<Deployment>, d: Deployment, k: nat)
    ensures Times(deployed + [d], k) == Times(deployed, k) + if d.job == k then 1 else 0
  {
    assert (deployed + [d])[..|deployed|] == deployed;
  }

  lemma AnswerKeepsOnce(s: State, job: nat, share: Share, text: Option<string>)
    requires Inv(s) && job < |s.jobs| && share in s.jobs[job].out
    ensures DeployedOnce(AfterConfig(s, job, share, text))
  {
    var j := Answered(s.jobs[job], share, text);
    AnswerChanges(s.jobs[job], share, text);
    var s' := AfterConfig(s, job, share, text);
    forall k: nat ensures Times(s'.deployed, k) == if k < |s'.jobs| && Deployable(s'.jobs[k]) then 1 else 0 {
      TimesAppend(s.deployed, Deployment(job, j.configs), k);
      assert k < |s.jobs| && k != job ==> s'.jobs[k] == s.jobs[k];
    }
  }

  lemma AnswerKeepsWhole(s: State, job: nat, share: Share, text: Option<string>)
    requires AllWhole(s) && job < |s.jobs| && share in s.jobs[job].out && Accounted(s.jobs[job])
    ensures AllWhole(AfterConfig(s, job, share, text))
  {
    var j := Answered(s.jobs[job], share, text);
    AnswerChanges(s.jobs[job], share, text);
    var s' := AfterConfig(s, job, share, text);
    forall i | 0 <= i < |s'.deployed|
      ensures s'.deployed[i].job < |s.jobs| && Whole(s'.deployed[i], s'.jobs[s'.deployed[i].job].rollout)
    {
      if i == |s.deployed| {
        assert s'.deployed[i] == Deployment(job, j.configs);
      } else {
        assert s'.deployed[i] == s.deployed[i];
        assert s'.jobs[s.deployed[i].job].rollout == s.jobs[s.deployed[i].job].rollout;
      }
    }
  }

  lemma AnswerKeepsAccounts(s: State, job: nat, share: Share, text: Option<string>)
    requires AllAccounted(s) && job < |s.jobs| && share in s.jobs[job].out
    ensures AllAccounted(AfterConfig(s, job, share, text))
  {
    AnswerChanges(s.jobs[job], share, text);
  }

  lemma ListKeepsInv(s: State, rollouts: seq<Rollout>)
    requires Inv(s) && s.calls > 0
    ensures Inv(AfterList(s, rollouts))
  {
    var s' := AfterList(s, rollouts);
    if s'.jobs != s.jobs {
      var j := s'.jobs[|s.jobs|];
      assert Shares(j.configs) == [];
      assert Accounted(j);
    }
  }

  lemma InvKept(s: State, e: Event, window: nat)
    requires Inv(s) && Enabled(s, e)
    ensures Inv(Next(s, e, window))
  {
    match e
    case RolloutsListed(rollouts) => ListKeepsInv(s, rollouts);
    case ConfigFetched(job, share, text) =>
      AnswerKeepsOnce(s, job, share, text);
      AnswerKeepsWhole(s, job, share, text);
      AnswerKeepsAccounts(s, job, share, text);
    case _ =>
  }

  lemma {:induction false} InvOverRun(s: State, es: seq<Event>, window: nat)
    requires Inv(s) && Throttled(s.timer, window) && Legal(s, es, window)
    ensures Inv(Run(s, es, window)) && Throttled(Run(s, es, window).timer, window)
    decreases |es|
  {
    if es != [] {
      InvKept(s, es[0], window);
      ThrottledKept(s, es[0], window);
      InvOverRun(Next(s, es[0], window), es[1..], window);
    }
  }

  // ---------- main results

  /** Whatever the order of the answers, a rollout is deployed once if all of its configs arrived
      and never otherwise, and what is deployed is the rollout's shares in some order. */
  lemma AllOrNothing(clock: int, nextWindow: int, currentId: string, es: seq<Event>, window: nat, k: nat)
    requires Legal(Initial(clock, nextWindow, currentId), es, window)
    ensures var s := Run(Initial(clock, nextWindow, currentId), es, window);
            && (k < |s.jobs| ==>
                  Times(s.deployed, k) ==
                  if s.jobs[k].out == multiset{} && s.jobs[k].failed == multiset{} then 1 else 0)
            && (k < |s.deployed| ==>
                  s.deployed[k].job < |s.jobs| && Whole(s.deployed[k], s.jobs[s.deployed[k].job].rollout))
  {
    var s0 := Initial(clock, nextWindow, currentId);
    InvOverRun(s0, es, window);
    var s := Run(s0, es, window);
    if k < |s.jobs| {
      CompleteMeansNothingOut(s.jobs[k]);
    }
  }

  /** Any two refreshes are at least one window apart. */
  lemma RefreshesAreApart(clock: int, nextWindow: int, currentId: string, es: seq<Event>, window: nat)
    requires Legal(Initial(clock, nextWindow, currentId), es, window)
    ensures Apart(Run(Initial(clock, nextWindow, currentId), es, window).timer.firings, window)
  {
    InvOverRun(Initial(clock, nextWindow, currentId), es, window);
  }

  // ---------- the current rollout

  /** The id of the rollout that was handed over last. */
  function LastId(s: State, startId: string): string
    requires AllWhole(s)
  {
    if s.deployed == [] then startId else s.jobs[s.deployed[|s.deployed| - 1].job].rollout.id
  }

  lemma CurrentAfterAnswer(s: State, job: nat, share: Share, text: Option<string>, startId: string)
    requires AllWhole(s) && job < |s.jobs| && s.currentId == LastId(s, startId)
    requires AllWhole(AfterConfig(s, job, share, text))
    ensures AfterConfig(s, job, share, text).currentId == LastId(AfterConfig(s, job, share, text), startId)
  {
    var t := AfterConfig(s, job, share, text);
    if t.deployed == s.deployed && s.deployed != [] {
      var k := s.deployed[|s.deployed| - 1].job;
      assert t.jobs[k].rollout == s.jobs[k].rollout;
    }
  }

  lemma CurrentKept(s: State, e: Event, window: nat, startId: string)
    requires AllWhole(s) && Enabled(s, e) && s.currentId == LastId(s, startId)
    requires AllWhole(Next(s, e, window))
    ensures Next(s, e, window).currentId == LastId(Next(s, e, window), startId)
  {
    if e.ConfigFetched? {
      CurrentAfterAnswer(s, e.job, e.share, e.text, startId);
    }
  }

  lemma {:induction false} CurrentOverRun(s: State, es: seq<Event>, window: nat, startId: string)
    requires Inv(s) && Legal(s, es, window) && s.currentId == LastId(s, startId)
    ensures Inv(Run(s, es, window)) && Run(s, es, window).currentId == LastId(Run(s, es, window), startId)
    decreases |es|
  {
    if es != [] {
      InvKept(s, es[0], window);
      CurrentKept(s, es[0], window, startId);
      CurrentOverRun(Next(s, es[0], window), es[1..], window, startId);
    }
  }

  /** Every answer has come. */
  ghost predicate NothingOut(s: State) {
    forall k :: 0 <= k < |s.jobs| ==> s.jobs[k].out == multiset{}
  }

  /** The event lists or reports no rollout but the one with this id. */
  predicate OnlyTells(e: Event, id: string) {
    && (e.Latest? ==> e.id == id)
    && (e.RolloutsListed? ==> e.rollouts == [] || e.rollouts[0].id == id)
  }

  /** As long as only the current rollout is heard of, it is not fetched again. */
  lemma {:induction false} NothingNewStartsNothing(s: State, es: seq<Event>, window: nat)
    requires Legal(s, es, window) && NothingOut(s)
    requires forall i :: 0 <= i < |es| ==> OnlyTells(es[i], s.currentId)
    ensures var t := Run(s, es, window);
            t.jobs == s.jobs && t.deployed == s.deployed && t.currentId == s.currentId
            && (!s.timer.running ==> !t.timer.running && t.timer.firings == s.timer.firings)
    decreases |es|
  {
    if es != [] {
      assert OnlyTells(es[0], s.currentId);
      assert !es[0].ConfigFetched?;
      assert forall i :: 0 <= i < |es[1..]| ==> es[1..][i] == es[i + 1];
      NothingNewStartsNothing(Next(s, es[0], window), es[1..], window);
    }
  }

  lemma LastAnswerDeploys(j: Job, share: Share, text: Option<string>)
    requires Accounted(j) && share in j.out
    ensures Deployable(Answered(j, share, text)) <==>
            j.out == multiset{share} && j.failed == multiset{} && text.Some?
    ensures Deployable(Answered(j, share, text)) ==>
              forall k :: Whole(Deployment(k, Answered(j, share, text).configs), j.rollout)
  {
    var j' := Answered(j, share, text);
    AnswerChanges(j, share, text);
    CompleteMeansNothingOut(j');
    assert j'.out == j.out - multiset{share};
    assert j.out - multiset{share} == multiset{} <==> j.out == multiset{share};
  }

  /** An answer hands its rollout over exactly when it was the last one out and none failed. */
  ghost predicate HandsOver(s: State, t: State, job: nat, share: Share, text: Option<string>) {
    && job < |s.jobs|
    && var j := s.jobs[job];
    if j.out == multiset{share} && j.failed == multiset{} && text.Some? then
      && |t.deployed| == |s.deployed| + 1 && t.deployed[..|s.deployed|] == s.deployed
      && t.deployed[|s.deployed|].job == job && Whole(t.deployed[|s.deployed|], j.rollout)
      && t.currentId == j.rollout.id
    else t.deployed == s.deployed && t.currentId == s.currentId
  }

  lemma AnswerHandsOver(s: State, job: nat, share: Share, text: Option<string>)
    requires job < |s.jobs| && Accounted(s.jobs[job]) && share in s.jobs[job].out
    ensures HandsOver(s, AfterConfig(s, job, share, text), job, share, text)
  {
    LastAnswerDeploys(s.jobs[job], share, text);
  }

  // ---------- the object whose callbacks these are

  class ConfigManager {
    const window: nat
    var timerRunning: bool
    var nextWindowTime: int
    var currentRolloutId: string
    /** The fetch infos that the callbacks share. */
    var jobs: seq<Job>
    /** The calls of the apply function. */
    var deployed: seq<Deployment>
    ghost var Calls: nat
    ghost var Firings: seq<int>

    ghost function View(clock: int): State
      reads this
    {
      State(Timer(clock, timerRunning, nextWindowTime, Firings), currentRolloutId, Calls, jobs, deployed)
    }

    /** At any time: rollouts were handed over whole, once each and only if complete, and refreshes
        are a window apart. */
    ghost predicate Valid(clock: int)
      reads this
    {
      Inv(View(clock)) && Throttled(View(clock).timer, window)
    }

    constructor (window: nat, nextWindowTime: int, rolloutId: string, ghost clock: int)
      ensures this.window == window && Valid(clock)
      ensures View(clock) == Initial(clock, nextWindowTime, rolloutId)
    {
      this.window, timerRunning, this.nextWindowTime := window, false, nextWindowTime;
      currentRolloutId, jobs, deployed, Calls, Firings := rolloutId, [], [], 0, [];
    }

    /** Time passing keeps the object valid. */
    lemma Later(clock: int, later: int)
      requires Valid(clock) && clock <= later
      ensures Valid(later)
    {
      assert View(later) == Next(View(clock), Tick(later), window);
      ThrottledKept(View(clock), Tick(later), window);
      InvKept(View(clock), Tick(later), window);
    }

    /** Starts the timer for a new rollout id, unless it runs or the window is still closed. */
    method SetLatestRolloutId(id: string, now: int, ghost clock: int)
      requires Valid(clock) && now <= clock
      modifies this`timerRunning
      ensures Valid(clock) && View(clock) == Next(old(View(clock)), Latest(id, now), window)
      ensures timerRunning <==> old(timerRunning) || (id != currentRolloutId && nextWindowTime <= now)
    {
      ThrottledKept(View(clock), Latest(id, now), window);
      InvKept(View(clock), Latest(id, now), window);
      if id == currentRolloutId { return; }
      if timerRunning || now < nextWindowTime { return; }
      timerRunning := true;
    }

    /** Fires at least one window after every earlier firing. */
    method OnRolloutsRefreshTimer(clock: int)
      requires Valid(clock) && timerRunning
      modifies this
      ensures Valid(clock) && View(clock) == Next(old(View(clock)), Fire, window)
      ensures Firings == old(Firings) + [clock]
      ensures forall i :: 0 <= i < |old(Firings)| ==> old(Firings)[i] + window <= clock
    {
      ThrottledKept(View(clock), Fire, window);
      InvKept(View(clock), Fire, window);
      timerRunning := false;
      nextWindowTime := clock + window;
      Firings, Calls := Firings + [clock], Calls + 1;
      assert Firings[|Firings| - 1] == clock;
    }

    /** Only a list whose first rollout is new and has shares starts fetches. */
    method OnRolloutResponse(rollouts: seq<Rollout>, ghost clock: int)
      requires Valid(clock) && Calls > 0
      modifies this
      ensures Valid(clock) && View(clock) == Next(old(View(clock)), RolloutsListed(rollouts), window)
      ensures deployed == old(deployed) && currentRolloutId == old(currentRolloutId)
    {
      ghost var s := View(clock);
      ThrottledKept(s, RolloutsListed(rollouts), window);
      InvKept(s, RolloutsListed(rollouts), window);
      FetchIfNew(rollouts, clock);
    }

    method FetchIfNew(rollouts: seq<Rollout>, ghost clock: int)
      requires Calls > 0
      modifies this`Calls, this`jobs
      ensures View(clock) == AfterList(old(View(clock)), rollouts)
    {
      Calls := Calls - 1;
      if rollouts == [] || currentRolloutId == rollouts[0].id || rollouts[0].shares == [] { return; }
      FetchConfigs(rollouts[0]);
    }

    /** Starts one fetch for each share of the rollout. */
    method FetchConfigs(rollout: Rollout)
      modifies this`jobs
      ensures jobs == old(jobs) + [Job(rollout, multiset(rollout.shares), multiset{}, [], 0)]
    {
      var out: multiset<Share> := multiset{};
      for i := 0 to |rollout.shares|
        invariant out == multiset(rollout.shares[..i])
      {
        assert rollout.shares[..i + 1] == rollout.shares[..i] + [rollout.shares[i]];
        out := out + multiset{rollout.shares[i]};
      }
      assert rollout.shares[..|rollout.shares|] == rollout.shares;
      jobs := jobs + [Job(rollout, out, multiset{}, [], 0)];
    }

    /** The callback of one fetch. It hands a rollout over exactly when it was the last one out and
        none failed, and then the whole rollout. */
    method OnConfig(job: nat, share: Share, text: Option<string>, ghost clock: int)
      requires Valid(clock) && job < |jobs| && share in jobs[job].out
      modifies this
      ensures Valid(clock) && View(clock) == Next(old(View(clock)), ConfigFetched(job, share, text), window)
      ensures HandsOver(old(View(clock)), View(clock), job, share, text)
    {
      ghost var s := View(clock);
      ThrottledKept(s, ConfigFetched(job, share, text), window);
      InvKept(s, ConfigFetched(job, share, text), window);
      AnswerHandsOver(s, job, share, text);
      CountAnswer(job, share, text, clock);
    }

    method CountAnswer(job: nat, share: Share, text: Option<string>, ghost clock: int)
      requires job < |jobs|
      modifies this
      ensures View(clock) == AfterConfig(old(View(clock)), job, share, text)
    {
      var j := jobs[job];
      if text.Some? {
        j := j.(configs := j.configs + [Fetched(share, text.value)]);
      } else {
        j := j.(failed := j.failed + multiset{share});
      }
      j := j.(out := j.out - multiset{share}, finished := j.finished + 1);
      jobs := jobs[job := j];
      if j.finished == |j.rollout.shares| {
        if |j.rollout.shares| == 0 || |j.configs| == 0 || |j.rollout.shares| != |j.configs| {
          return;
        }
        deployed := deployed + [Deployment(job, j.configs)];
        currentRolloutId := j.rollout.id;
      }
    }
  }
}
