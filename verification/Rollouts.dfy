/** The config manager and the API manager together: which configs serve traffic after any run. */
module Rollouts {
  import opened Wrappers
  import opened ConfigManager
  import opened ApiManager

  /** What the apply function hands to AddAndDeployConfigs. */
  function Handed(d: Deployment): (configs: seq<Weighted>)
    ensures |configs| == |d.configs|
    ensures forall i :: 0 <= i < |configs| ==>
              configs[i] == Weighted(d.configs[i].text, d.configs[i].share.percentage)
  {
    seq(|d.configs|, i requires 0 <= i < |d.configs| =>
      Weighted(d.configs[i].text, d.configs[i].share.percentage))
  }

  function AllHanded(ds: seq<Deployment>): (lists: seq<seq<Weighted>>)
    ensures |lists| == |ds| && forall i :: 0 <= i < |ds| ==> lists[i] == Handed(ds[i])
  {
    seq(|ds|, i requires 0 <= i < |ds| => Handed(ds[i]))
  }

  /** What is loaded after the hand-overs of a run. */
  function Live(create: Creator, start: Loaded, s: State): Loaded {
    DeployAll(create, start, AllHanded(s.deployed))
  }

  /** Over every run: traffic goes to the whole rollout that was the last to load, every id that can
      be selected has a context, and the current id is that of the last rollout handed over. */
  lemma LastLoadedServes(create: Creator, start: Loaded, clock: int, nextWindow: int, startId: string,
                         es: seq<Event>, window: nat, k: nat)
    requires Sound(start) && Legal(Initial(clock, nextWindow, startId), es, window)
    ensures var s := Run(Initial(clock, nextWindow, startId), es, window);
            && Sound(Live(create, start, s)) && Inv(s) && s.currentId == LastId(s, startId)
            && (LastToLoad(create, start, AllHanded(s.deployed), k) ==>
                  && Live(create, start, s).entries == Some(Entries(create, Handed(s.deployed[k])))
                  && Whole(s.deployed[k], s.jobs[s.deployed[k].job].rollout))
            && (NoneLoads(create, start, AllHanded(s.deployed)) ==> Live(create, start, s).entries == start.entries)
  {
    var s0 := Initial(clock, nextWindow, startId);
    InvOverRun(s0, es, window);
    CurrentOverRun(s0, es, window, startId);
    var lists := AllHanded(Run(s0, es, window).deployed);
    ContextsStay(create, start, lists);
    if LastToLoad(create, start, lists, k) { SelectorIsLastLoaded(create, start, lists, k); }
    if NoneLoads(create, start, lists) { SelectorStays(create, start, lists); }
  }

  lemma {:induction false} DeployAllAppend(create: Creator, l: Loaded, lists: seq<seq<Weighted>>)
    requires lists != []
    ensures DeployAll(create, l, lists) ==
            Deploy(create, DeployAll(create, l, lists[..|lists| - 1]), lists[|lists| - 1])
    decreases |lists|
  {
    var front, rest := lists[..|lists| - 1], lists[1..];
    if |lists| > 1 {
      DeployAllAppend(create, Deploy(create, l, lists[0]), rest);
      assert rest[..|rest| - 1] == front[1..];
    }
  }

  lemma FailedListChangesNothing(create: Creator, l: Loaded, lists: seq<seq<Weighted>>)
    requires lists != [] && !LoadsAt(create, l, lists, |lists| - 1)
    ensures DeployAll(create, l, lists).entries == DeployAll(create, l, lists[..|lists| - 1]).entries
  {
    DeployAllAppend(create, l, lists);
    EntriesAreUntouched(create, DeployAll(create, l, lists[..|lists| - 1]), lists[|lists| - 1]);
  }

  lemma FailedHandOver(create: Creator, start: Loaded, ds: seq<Deployment>)
    requires ds != [] && !LoadsAt(create, start, AllHanded(ds), |ds| - 1)
    ensures DeployAll(create, start, AllHanded(ds)).entries ==
            DeployAll(create, start, AllHanded(ds[..|ds| - 1])).entries
  {
    FailedListChangesNothing(create, start, AllHanded(ds));
    assert AllHanded(ds)[..|ds| - 1] == AllHanded(ds[..|ds| - 1]);
  }

  /** A rollout that fails to load: the selector is that of before, but the rollout's id is the
      current one, and until another id is heard of it is not fetched again. */
  lemma FailedRolloutIsNotRetried(create: Creator, start: Loaded, clock: int, nextWindow: int, startId: string,
                                  es: seq<Event>, s: State, more: seq<Event>, window: nat)
    requires Legal(Initial(clock, nextWindow, startId), es, window)
    requires s == Run(Initial(clock, nextWindow, startId), es, window)
    requires s.deployed != [] && !LoadsAt(create, start, AllHanded(s.deployed), |s.deployed| - 1)
    requires NothingOut(s) && Legal(s, more, window)
    requires forall i :: 0 <= i < |more| ==> OnlyTells(more[i], s.currentId)
    ensures AllWhole(s) && s.currentId == s.jobs[s.deployed[|s.deployed| - 1].job].rollout.id
    ensures var t := Run(s, more, window);
            && t.currentId == s.currentId && t.jobs == s.jobs && t.deployed == s.deployed
            && Live(create, start, t).entries ==
               DeployAll(create, start, AllHanded(s.deployed[..|s.deployed| - 1])).entries
  {
    CurrentFromStart(clock, nextWindow, startId, es, s, window);
    NothingNewStartsNothing(s, more, window);
    FailedHandOver(create, start, s.deployed);
  }

  lemma CurrentFromStart(clock: int, nextWindow: int, startId: string, es: seq<Event>, s: State, window: nat)
    requires Legal(Initial(clock, nextWindow, startId), es, window)
    requires s == Run(Initial(clock, nextWindow, startId), es, window)
    ensures AllWhole(s) && s.currentId == LastId(s, startId)
  {
    CurrentOverRun(Initial(clock, nextWindow, startId), es, window, startId);
  }
}
