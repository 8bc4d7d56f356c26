/** Which file the cached stamp speaks of, over whole runs. */
module RuleSnapshotsStamps {
  import opened Options
  import opened HitPool
  import opened RuleSnapshots
  import opened RuleSnapshotsSafety
  import opened RuleSnapshotsTheorems

  /** What thread t's latest stat of the rule file yielded. */
  ghost function LastObserved(run: Run, t: nat, n: nat): Option<Stamp>
    requires n <= |run.actions|
  {
    if n == 0 then None
    else if run.actions[n - 1].Observe? && run.actions[n - 1].t == t then Some(run.actions[n - 1].stamp)
    else LastObserved(run, t, n - 1)
  }

  /** What the thread that last finished a reload had seen of the file before it began. */
  ghost function LastPublished(run: Run, n: nat): Option<Stamp>
    requires n <= |run.actions|
  {
    if n == 0 then Some(UNKNOWN)
    else if run.actions[n - 1].Publish? then LastObserved(run, run.actions[n - 1].t, n - 1)
    else LastPublished(run, n - 1)
  }

  predicate Stamped(thread: Thread) {
    thread.Observed? || thread.Loaded? || thread.Owner?
  }

  /** The stamps a thread carries: its own latest, and as an owner the one it displaced. */
  ghost predicate Carries(thread: Thread, latest: Option<Stamp>, published: Option<Stamp>) {
    && (Stamped(thread) ==> latest == Some(thread.observed))
    && (thread.Owner? ==> published == Some(thread.previous))
  }

  ghost predicate AllCarry(run: Run, n: nat)
    requires |run.states| == |run.actions| + 1 && n <= |run.actions|
  {
    && (run.states[n].core.cached == RELOADING || LastPublished(run, n) == Some(run.states[n].core.cached))
    && forall t | 0 <= t < |run.states[n].threads| ::
         Carries(run.states[n].threads[t], LastObserved(run, t, n), LastPublished(run, n))
  }

  lemma OwnerSetsStamp(env: Env, core: Core, thread: Thread, a: Action, core': Core)
    requires Shaped(core) && thread.Owner? && OwnerEnabled(env, core, thread.phase, a)
    requires core' == OwnerApply(env, core, thread, a)
    ensures !a.Observe?
    ensures core'.cached == if a.Publish? then thread.observed else if a.Restore? then thread.previous else core.cached
  {
    OwnersTakeOwnerActions(env, core, thread.phase, a);
  }

  lemma OtherStepCarries(env: Env, core: Core, thread: Thread, a: Action, core': Core, thread': Thread,
                         latest: Option<Stamp>, published: Option<Stamp>)
    requires Shaped(core) && Carries(thread, latest, published)
    requires core.cached == RELOADING || published == Some(core.cached)
    requires (core' == core && ReaderStep(env, core, thread, a, thread')) || WriterStep(core, thread, a, core', thread')
    ensures !a.Publish? && (core'.cached == RELOADING || published == Some(core'.cached))
    ensures Carries(thread', if a.Observe? then Some(a.stamp) else latest, published)
  {
  }

  lemma OwnStepCarries(env: Env, core: Core, thread: Thread, a: Action, core': Core, thread': Thread,
                       latest: Option<Stamp>, published: Option<Stamp>)
    requires Shaped(core) && Carries(thread, latest, published)
    requires core.cached == RELOADING || published == Some(core.cached)
    requires (core' == core && ReaderStep(env, core, thread, a, thread')) || WriterStep(core, thread, a, core', thread')
             || OwnerStep(env, core, thread, a, core', thread')
    ensures a.Publish? ==> thread.Owner? && thread' == Idle && latest == Some(core'.cached)
    ensures !a.Publish? ==> core'.cached == RELOADING || published == Some(core'.cached)
    ensures Carries(thread', if a.Observe? then Some(a.stamp) else latest, published)
  {
    hide ReaderStep, WriterStep, OwnerEnabled, OwnerApply, OwnerPhase;
    if OwnerStep(env, core, thread, a, core', thread') {
      OwnerSetsStamp(env, core, thread, a, core');
    } else {
      OtherStepCarries(env, core, thread, a, core', thread', latest, published);
    }
  }

  lemma AlonePublishes(env: Env, run: Run, i: nat, t: nat)
    requires IsRun(env, run) && i < |run.actions| && run.actions[i].t < |run.states[i].threads|
    requires run.states[i].threads[run.actions[i].t].Owner? && t < |run.states[i].threads| && t != run.actions[i].t
    ensures !run.states[i].threads[t].Owner?
  {
    hide Inv;
    OneOwner(env, run, i, t, run.actions[i].t);
  }

  lemma StepCarries(env: Env, run: Run, i: nat)
    requires IsRun(env, run) && i < |run.actions| && AllCarry(run, i)
    ensures AllCarry(run, i + 1)
  {
    hide Inv, ThreadOk, WellFormed, Bounded, ReaderStep, WriterStep, OwnerStep, Init;
    At(env, run, i);
    var s, a, s' := run.states[i], run.actions[i], run.states[i + 1];
    ShapedIn(env, s);
    OwnStepCarries(env, s.core, s.threads[a.t], a, s'.core, s'.threads[a.t], LastObserved(run, a.t, i), LastPublished(run, i));
    forall t | 0 <= t < |s'.threads|
      ensures Carries(s'.threads[t], LastObserved(run, t, i + 1), LastPublished(run, i + 1))
    {
      if t != a.t && a.Publish? {
        AlonePublishes(env, run, i, t);
      }
    }
  }

  lemma {:induction false} RunCarries(env: Env, run: Run, n: nat)
    requires IsRun(env, run) && n <= |run.actions|
    ensures AllCarry(run, n)
  {
    if n > 0 {
      hide Init, Moves, AllCarry;
      RunCarries(env, run, n - 1);
      StepCarries(env, run, n - 1);
    }
  }

  /**
   * Outside a reload the cached stamp is the one the file had when the thread that last finished a
   * reload looked at it, before it began. A reload that was given up leaves no trace in it.
   */
  lemma CachedStampIsOfTheLastReload(env: Env, run: Run, n: nat)
    requires IsRun(env, run) && n <= |run.actions| && run.states[n].core.cached != RELOADING
    ensures LastPublished(run, n) == Some(run.states[n].core.cached)
  {
    RunCarries(env, run, n);
  }
}
