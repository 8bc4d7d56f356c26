/** What a lookup does not do: miss a rule that is there. */
module RuleSnapshotsLookups {
  import opened Options
  import opened HitPool
  import opened RuleSnapshots
  import opened RuleSnapshotsSafety
  import opened RuleSnapshotsTheorems
  import Selection

  /** Nothing has happened to the snapshot since the lookup sampled its sequence, which was even and not 0. */
  ghost predicate Undisturbed(core: Core, thread: Thread)
    requires Shaped(core) && Reading(thread) && thread.snap < 2
  {
    Fresh(core, thread.snap, thread.begin)
  }

  ghost predicate NoneMatches(env: Env, rules: seq<Rule>, query: nat) {
    forall r | r in rules :: !env.matches(query, Image(env, r)[..KEY_WORDS])
  }

  /** The list that lies in the snapshot, seen through its keys. */
  lemma KeysOfList(env: Env, snapshot: Snapshot, rules: seq<Rule>, query: nat)
    requires Completed(env, snapshot, rules)
    ensures Keys(env, query, snapshot.cells)[..snapshot.count] == Keys(env, query, Images(env, rules))
  {
    hide Image;
    forall i | 0 <= i < |rules| ensures snapshot.cells[i] == Images(env, rules)[i] {
      assert snapshot.cells[..|rules|][i] == snapshot.cells[i];
    }
  }

  lemma NoKeysNoMatch(env: Env, rules: seq<Rule>, query: nat)
    requires Selection.Best(Keys(env, query, Images(env, rules))).None?
    ensures NoneMatches(env, rules, query)
  {
    var keys := Keys(env, query, Images(env, rules));
    Selection.BestIsEarliestMaximum(keys);
    hide Image, Selection.Best;
    forall i | 0 <= i < |rules| ensures !env.matches(query, Image(env, rules[i])[..KEY_WORDS]) {
      assert keys[i].None?;
    }
  }

  lemma UndisturbedMiss(env: Env, core: Core, thread: Thread, a: Action, thread': Thread)
    requires Shaped(core) && HistoryOk(env, core)
    requires Reading(thread) && WellFormed(thread) && ReaderOk(env, core, thread)
    requires !a.Leave? && ReaderStep(env, core, thread, a, thread') && thread' == Idle && Undisturbed(core, thread)
    ensures Completed(env, core.snapshots[thread.snap], core.lists[thread.snap])
    ensures core.lists[thread.snap] in core.history
    ensures NoneMatches(env, core.lists[thread.snap], thread.query)
  {
    hide Keys, Images, Selection.Best, NoneMatches;
    var snapshot, rules := core.snapshots[thread.snap], core.lists[thread.snap];
    if a.StartCopy? {
      KeysOfList(env, snapshot, rules, thread.query);
      NoKeysNoMatch(env, rules, thread.query);
    } else {
      assert a.CountTest?;
      NoRulesNoMatch(env, thread.query);
    }
  }

  lemma NoRulesNoMatch(env: Env, query: nat)
    ensures NoneMatches(env, [], query)
  {
  }

  lemma OnlyReadersRead(env: Env, core: Core, thread: Thread, a: Action, core': Core, thread': Thread)
    requires Shaped(core) && Reading(thread)
    ensures !WriterStep(core, thread, a, core', thread') && !OwnerStep(env, core, thread, a, core', thread')
  {
  }

  /**
   * A lookup gives up only if its snapshot was being written or has been written since it began, or no
   * rule matches of the published list that lies there.
   */
  lemma MissMeansNoMatch(env: Env, run: Run, i: nat)
    requires IsRun(env, run) && i < |run.actions| && !run.actions[i].Leave?
    requires var t := run.actions[i].t;
             && t < |run.states[i].threads| && Reading(run.states[i].threads[t])
             && t < |run.states[i + 1].threads| && run.states[i + 1].threads[t] == Idle
    ensures var core, thread := run.states[i].core, run.states[i].threads[run.actions[i].t];
            && Shaped(core) && thread.snap < 2
            && (Undisturbed(core, thread) ==>
                  && Completed(env, core.snapshots[thread.snap], core.lists[thread.snap])
                  && core.lists[thread.snap] in core.history
                  && NoneMatches(env, core.lists[thread.snap], thread.query))
  {
    hide Inv, Bounded, ReaderStep, WriterStep, OwnerStep, ReaderOk, HistoryOk, Completed, NoneMatches, Fresh;
    At(env, run, i);
    var s, a := run.states[i], run.actions[i];
    LookupParts(env, s, a.t);
    OnlyReadersRead(env, s.core, s.threads[a.t], a, run.states[i + 1].core, run.states[i + 1].threads[a.t]);
    if Undisturbed(s.core, s.threads[a.t]) {
      UndisturbedMiss(env, s.core, s.threads[a.t], a, run.states[i + 1].threads[a.t]);
    }
  }

  lemma LookupParts(env: Env, s: State, t: nat)
    requires Inv(env, s) && t < |s.threads|
    ensures Shaped(s.core) && HistoryOk(env, s.core) && WellFormed(s.threads[t]) && ReaderOk(env, s.core, s.threads[t])
    ensures Reading(s.threads[t]) ==> s.threads[t].snap < 2
  {
    hide HistoryOk, ReaderOk;
    assert ThreadOk(env, s.core, s.threads[t]);
  }

  // ---- Nor does it read a list that was replaced before it began ------------------------------

  predicate LookingUp(thread: Thread) {
    thread.Located? || Reading(thread)
  }

  /** From the step after j to step i thread t is in one lookup, which step j began on the active snapshot. */
  ghost predicate LocatedAt(run: Run, j: nat, i: nat, t: nat)
    requires |run.states| == |run.actions| + 1 && i < |run.states|
  {
    && j < i && run.actions[j].Locate? && run.actions[j].t == t
    && t < |run.states[i].threads| && LookingUp(run.states[i].threads[t])
    && (forall m | j < m <= i ::
          && t < |run.states[m].threads| && LookingUp(run.states[m].threads[t])
          && run.states[m].threads[t].snap == run.states[i].threads[t].snap)
    && run.states[i].threads[t].snap == run.states[j].core.active
  }

  lemma OwnStepLooksOn(env: Env, core: Core, thread: Thread, a: Action, core': Core, thread': Thread)
    requires Shaped(core) && LookingUp(thread')
    requires ReaderStep(env, core, thread, a, thread') || WriterStep(core, thread, a, core', thread')
             || OwnerStep(env, core, thread, a, core', thread')
    ensures if a.Locate? then thread'.snap == core.active else LookingUp(thread) && thread'.snap == thread.snap
  {
    hide OwnerEnabled, OwnerApply, OwnerPhase;
  }

  lemma LooksOn(env: Env, run: Run, i: nat, t: nat)
    requires IsRun(env, run) && i < |run.actions|
    requires t < |run.states[i + 1].threads| && LookingUp(run.states[i + 1].threads[t])
    ensures t < |run.states[i].threads|
    ensures var before, after := run.states[i].threads[t], run.states[i + 1].threads[t];
            if run.actions[i].Locate? && run.actions[i].t == t then after.snap == run.states[i].core.active
            else LookingUp(before) && after.snap == before.snap
  {
    hide ReaderStep, WriterStep, OwnerStep, Bounded, Init;
    assert Moves(env, run, i);
    if run.actions[i].t == t {
      OwnStepLooksOn(env, run.states[i].core, run.states[i].threads[t], run.actions[i],
                     run.states[i + 1].core, run.states[i + 1].threads[t]);
    }
  }

  lemma {:induction false} LookupWasLocated(env: Env, run: Run, i: nat, t: nat) returns (j: nat)
    requires IsRun(env, run) && i < |run.states|
    requires t < |run.states[i].threads| && LookingUp(run.states[i].threads[t])
    ensures LocatedAt(run, j, i, t)
  {
    assert i > 0;
    hide Init, Moves;
    LooksOn(env, run, i - 1, t);
    if run.actions[i - 1].Locate? && run.actions[i - 1].t == t {
      j := i - 1;
    } else {
      j := LookupWasLocated(env, run, i - 1, t);
    }
  }

  /** Step i completes a new list in snapshot k. */
  ghost predicate NewList(run: Run, i: nat, k: nat)
    requires |run.states| == |run.actions| + 1 && i < |run.actions|
  {
    run.actions[i].Attached? && run.states[i].core.active == 1 - k
  }

  lemma ListsChange(env: Env, run: Run, i: nat, k: nat)
    requires IsRun(env, run) && i < |run.actions| && k < 2
    ensures |run.states[i].core.lists| == |run.states[i + 1].core.lists| == 2
    ensures run.states[i + 1].core.lists[k] != run.states[i].core.lists[k] ==> NewList(run, i, k)
  {
    hide Inv, ThreadOk, WellFormed, Bounded, ReaderStep;
    At(env, run, i);
    RunKeepsInv(env, run, i + 1);
    ShapedIn(env, run.states[i]);
    ShapedIn(env, run.states[i + 1]);
    var s, a, s' := run.states[i], run.actions[i], run.states[i + 1];
    if OwnerStep(env, s.core, s.threads[a.t], a, s'.core, s'.threads[a.t]) {
      hide OwnerStep;
      OwnerStepLists(env, s.core, s.threads[a.t], a, s'.core, s'.threads[a.t]);
    }
  }

  lemma OwnerStepLists(env: Env, core: Core, thread: Thread, a: Action, core': Core, thread': Thread)
    requires Shaped(core) && OwnerStep(env, core, thread, a, core', thread')
    ensures core'.lists == core.lists || (a.Attached? && core'.lists[..] == core.lists[Next(core) := core'.lists[Next(core)]])
  {
    OwnersTakeOwnerActions(env, core, thread.phase, a);
  }

  lemma {:induction false} ListsChanged(env: Env, run: Run, j: nat, i: nat, k: nat) returns (m: nat)
    requires IsRun(env, run) && j <= i < |run.states| && k < 2
    ensures |run.states[j].core.lists| == |run.states[i].core.lists| == 2
    ensures run.states[i].core.lists[k] != run.states[j].core.lists[k] ==> j <= m < i && NewList(run, m, k)
    decreases i
  {
    hide Init, Moves, NewList;
    m := j;
    if i > j {
      ListsChange(env, run, i - 1, k);
      m := ListsChanged(env, run, j, i - 1, k);
      if run.states[i].core.lists[k] != run.states[i - 1].core.lists[k] {
        m := i - 1;
      }
    } else {
      RunKeepsInv(env, run, i);
      ShapedIn(env, run.states[i]);
    }
  }

  /**
   * A copy accepted with a sequence other than 0 comes from the list that was active when its lookup
   * began, or from one completed since.
   */
  lemma LookupIsNotStale(env: Env, run: Run, i: nat) returns (j: nat, m: nat)
    requires IsRun(env, run) && i < |run.actions|
    requires run.actions[i].Validate? && run.actions[i].t < |run.states[i + 1].threads|
    requires run.states[i + 1].threads[run.actions[i].t].Holding? && run.states[i + 1].threads[run.actions[i].t].begin != 0
    ensures LocatedAt(run, j, i, run.actions[i].t)
    ensures var thread', k := run.states[i + 1].threads[run.actions[i].t], run.states[j].core.active;
            && k < 2 && |run.states[j].core.lists| == |run.states[i].core.lists| == 2
            && SelectedFrom(env, run.states[i].core.lists[k], thread'.query, thread'.copy)
            && (run.states[i].core.lists[k] == run.states[j].core.lists[k] || (j <= m < i && NewList(run, m, k)))
  {
    hide Init, Moves, NewList, SelectedFrom, Completed;
    AcceptedCopyIsPresent(env, run, i);
    j := LookupWasLocated(env, run, i, run.actions[i].t);
    m := ListsChanged(env, run, j, i, run.states[j].core.active);
  }
}
