/**
 * What the rule-snapshot protocol guarantees, stated over whole runs.
 *
 * Every theorem quantifies over all runs: any number of threads, any interleaving of single
 * memory accesses, any rule files, any number of reloads (finished or aborted). The one
 * assumption on a run is that no slot's generation reaches 2^32, where claim-word tags repeat.
 */
module RuleSnapshotsTheorems {
  import opened Options
  import opened HitPool
  import opened RuleSnapshots
  import opened RuleSnapshotsSafety
  import Selection

  datatype Run = Run(states: seq<State>, actions: seq<Action>)

  /** Action i takes state i to state i + 1, with no generation at its limit. */
  ghost predicate Moves(env: Env, run: Run, i: nat)
    requires |run.states| == |run.actions| + 1 && i < |run.actions|
  {
    && Shaped(run.states[i].core) && Bounded(run.states[i].core)
    && Step(env, run.states[i], run.actions[i], run.states[i + 1])
  }

  ghost predicate IsRun(env: Env, run: Run) {
    && |run.states| == |run.actions| + 1
    && Init(run.states[0])
    && forall i | 0 <= i < |run.actions| :: Moves(env, run, i)
  }

  /** The invariant after i steps; named so that proofs over runs need not open it. */
  ghost predicate Good(env: Env, run: Run, i: nat)
    requires i < |run.states|
  {
    Inv(env, run.states[i])
  }

  lemma RunStartsGood(env: Env, run: Run)
    requires IsRun(env, run)
    ensures Good(env, run, 0)
  {
    InitInv(env, run.states[0]);
  }

  lemma MoveKeepsGood(env: Env, run: Run, i: nat)
    requires |run.states| == |run.actions| + 1 && i < |run.actions|
    requires Good(env, run, i) && Moves(env, run, i)
    ensures Good(env, run, i + 1)
  {
    StepKeeps(env, run.states[i], run.actions[i], run.states[i + 1]);
  }

  lemma {:induction false} RunKeepsGood(env: Env, run: Run, i: nat)
    requires |run.states| == |run.actions| + 1 && i < |run.states|
    requires Good(env, run, 0) && forall k | 0 <= k < |run.actions| :: Moves(env, run, k)
    ensures Good(env, run, i)
  {
    if i > 0 {
      RunKeepsGood(env, run, i - 1);
      MoveKeepsGood(env, run, i - 1);
    }
  }

  lemma RunKeepsInv(env: Env, run: Run, i: nat)
    requires IsRun(env, run) && i < |run.states|
    ensures Inv(env, run.states[i])
  {
    RunStartsGood(env, run);
    RunKeepsGood(env, run, i);
  }

  /** What is known before step i: the invariant, the step, and its own thread's part. */
  lemma At(env: Env, run: Run, i: nat)
    requires IsRun(env, run) && i < |run.actions|
    ensures Inv(env, run.states[i]) && Bounded(run.states[i].core)
    ensures Step(env, run.states[i], run.actions[i], run.states[i + 1])
    ensures run.actions[i].t < |run.states[i].threads| == |run.states[i + 1].threads|
    ensures var thread := run.states[i].threads[run.actions[i].t];
            WellFormed(thread) && ThreadOk(env, run.states[i].core, thread)
  {
    RunKeepsInv(env, run, i);
    assert Moves(env, run, i);
  }

  /** The stamp's CAS elects at most one reload owner, and RELOADING means there is one. */
  lemma OneOwner(env: Env, run: Run, i: nat, t: nat, u: nat)
    requires IsRun(env, run) && i < |run.states|
    requires t < |run.states[i].threads| && u < |run.states[i].threads|
    ensures run.states[i].threads[t].Owner? && run.states[i].threads[u].Owner? ==> t == u
    ensures run.states[i].threads[t].Owner? ==> run.states[i].core.cached == RELOADING
    ensures run.states[i].core.cached == RELOADING ==>
              exists o :: 0 <= o < |run.states[i].threads| && run.states[i].threads[o].Owner?
  {
    RunKeepsInv(env, run, i);
  }

  /** No step writes the active snapshot, whose sequence is even and in place. */
  lemma ActiveIsNeverWritten(env: Env, run: Run, i: nat)
    requires IsRun(env, run) && i < |run.actions|
    ensures Shaped(run.states[i].core) && Shaped(run.states[i + 1].core)
    ensures var before, after := run.states[i].core, run.states[i + 1].core;
            && after.snapshots[before.active] == before.snapshots[before.active]
            && before.snapshots[before.active].sequence % 2 == 0 && !before.snapshots[before.active].cleared
  {
    RunKeepsInv(env, run, i);
    RunKeepsInv(env, run, i + 1);
    StepSparesActive(env, run, i);
  }

  lemma StepSparesActive(env: Env, run: Run, i: nat)
    requires IsRun(env, run) && i < |run.actions|
    requires Shaped(run.states[i].core) && Shaped(run.states[i + 1].core)
    ensures run.states[i + 1].core.snapshots[run.states[i].core.active] == run.states[i].core.snapshots[run.states[i].core.active]
  {
    assert Moves(env, run, i);
    var s, a, s' := run.states[i], run.actions[i], run.states[i + 1];
    if OwnerStep(env, s.core, s.threads[a.t], a, s'.core, s'.threads[a.t]) {
      OwnerSparesActive(env, s.core, s.threads[a.t], a, s'.core);
    }
  }

  lemma OwnerSparesActive(env: Env, core: Core, thread: Thread, a: Action, core': Core)
    requires Shaped(core) && thread.Owner? && OwnerEnabled(env, core, thread.phase, a)
    requires core' == OwnerApply(env, core, thread, a)
    ensures core'.snapshots[core.active] == core.snapshots[core.active]
    ensures core'.wins == core.wins && core'.torn == core.torn
  {
    OwnersTakeOwnerActions(env, core, thread.phase, a);
  }

  // ---- Copies ------------------------------------------------------------------------------

  /**
   * A copy that was accepted with a sampled sequence other than 0 is, word for word, the rule that
   * the same lookup run alone on one completed snapshot returns, with that rule's slot and generation.
   */
  lemma AcceptedCopyIsAWholeRule(env: Env, run: Run, i: nat, t: nat) returns (h: nat, best: nat)
    requires IsRun(env, run) && i < |run.states|
    requires t < |run.states[i].threads| && run.states[i].threads[t].Holding? && run.states[i].threads[t].begin != 0
    ensures var thread, core := run.states[i].threads[t], run.states[i].core;
            && h < |core.history| && best < |core.history[h]|
            && thread.copy == Image(env, core.history[h][best])
            && IsLongestMatch(env, thread.query, core.history[h], best)
  {
    RunKeepsInv(env, run, i);
    var thread, core := run.states[i].threads[t], run.states[i].core;
    assert ThreadOk(env, core, thread);
    h :| 0 <= h < |core.history| && SelectedFrom(env, core.history[h], thread.query, thread.copy);
    best := LongestIsBest(env, thread.query, core.history[h]);
  }

  /** The rule matches the query, and its prefix is the longest of all that do, the earliest of those. */
  ghost predicate IsLongestMatch(env: Env, query: nat, rules: seq<Rule>, best: nat) {
    && best < |rules| && env.matches(query, Image(env, rules[best])[..132])
    && forall j | 0 <= j < |rules| && env.matches(query, Image(env, rules[j])[..132]) ::
         var length, longest := Image(env, rules[j])[128], Image(env, rules[best])[128];
         length < longest || (length == longest && best <= j)
  }

  lemma LongestIsBest(env: Env, query: nat, rules: seq<Rule>) returns (best: nat)
    requires Selection.Best(Keys(env, query, Images(env, rules))).Some?
    ensures Selection.Best(Keys(env, query, Images(env, rules))) == Some(best) && IsLongestMatch(env, query, rules, best)
  {
    var keys := Keys(env, query, Images(env, rules));
    best := Selection.Best(keys).value;
    Selection.BestIsEarliestMaximum(keys);
    assert Selection.IsEarliestMaximum(keys, best);
    hide Image, Selection.Best;
    forall j | 0 <= j < |rules|
      ensures keys[j] == if env.matches(query, Image(env, rules[j])[..132]) then Some(Image(env, rules[j])[128]) else None
    {
    }
  }

  /**
   * Nor is it stale when it is accepted: validation passes only while the list the copy was selected
   * from is still the whole of its snapshot, one of the two there are.
   */
  lemma AcceptedCopyIsPresent(env: Env, run: Run, i: nat)
    requires IsRun(env, run) && i < |run.actions|
    requires run.actions[i].Validate? && run.actions[i].t < |run.states[i + 1].threads|
    requires run.states[i + 1].threads[run.actions[i].t].Holding? && run.states[i + 1].threads[run.actions[i].t].begin != 0
    ensures Shaped(run.states[i].core)
    ensures run.actions[i].t < |run.states[i].threads| && run.states[i].threads[run.actions[i].t].Copying?
    ensures var core, thread := run.states[i].core, run.states[i].threads[run.actions[i].t];
            && thread.snap < 2 && run.states[i + 1].core == core
            && Completed(env, core.snapshots[thread.snap], core.lists[thread.snap])
            && var thread' := run.states[i + 1].threads[run.actions[i].t];
               SelectedFrom(env, core.lists[thread.snap], thread'.query, thread'.copy)
  {
    At(env, run, i);
    var s, a := run.states[i], run.actions[i];
    AcceptedCopyIsSelected(env, s.core, s.threads[a.t]);
  }

  /** Between the two reads of the sequence. */
  predicate Reading(thread: Thread) {
    thread.Sampled? || thread.Counted? || thread.Scanning? || thread.Copying?
  }

  /** From the step after j to step i thread t is in one lookup, whose first read of the sequence step j was. */
  ghost predicate SampledAt(run: Run, j: nat, i: nat, t: nat)
    requires |run.states| == |run.actions| + 1 && i < |run.states|
  {
    && j < i && run.actions[j] == Sample(t)
    && (forall m | j <= m <= i :: t < |run.states[m].threads| && Shaped(run.states[m].core))
    && Reading(run.states[i].threads[t]) && run.states[i].threads[t].snap < 2
    && (forall m | j < m <= i ::
          && Reading(run.states[m].threads[t])
          && run.states[m].threads[t].query == run.states[i].threads[t].query
          && run.states[m].threads[t].snap == run.states[i].threads[t].snap
          && run.states[m].threads[t].begin == run.states[i].threads[t].begin)
    && run.states[i].threads[t].begin == Shown(run.states[j].core.snapshots[run.states[i].threads[t].snap])
  }

  /** A step that leaves its thread reading is its first read of the sequence or goes on with the lookup. */
  lemma OwnStepReadsOn(env: Env, core: Core, thread: Thread, a: Action, core': Core, thread': Thread)
    requires Shaped(core) && Reading(thread')
    requires ReaderStep(env, core, thread, a, thread') || WriterStep(core, thread, a, core', thread')
             || OwnerStep(env, core, thread, a, core', thread')
    ensures if a.Sample? then thread'.snap < 2 && thread'.begin == Shown(core.snapshots[thread'.snap])
            else Reading(thread) && thread'.query == thread.query && thread'.snap == thread.snap && thread'.begin == thread.begin
  {
    hide OwnerEnabled, OwnerApply, OwnerPhase;
  }

  lemma ReadsOn(env: Env, run: Run, i: nat, t: nat)
    requires IsRun(env, run) && i < |run.actions|
    requires t < |run.states[i + 1].threads| && Reading(run.states[i + 1].threads[t])
    ensures Shaped(run.states[i].core) && t < |run.states[i].threads| && run.states[i + 1].threads[t].snap < 2
    ensures var before, after := run.states[i].threads[t], run.states[i + 1].threads[t];
            if run.actions[i] == Sample(t) then after.begin == Shown(run.states[i].core.snapshots[after.snap])
            else Reading(before) && after.query == before.query && after.snap == before.snap && after.begin == before.begin
  {
    hide ReaderStep, WriterStep, OwnerStep, Bounded, Inv;
    RunKeepsInv(env, run, i + 1);
    WellFormedIn(env, run.states[i + 1], t);
    assert Moves(env, run, i);
    if run.actions[i].t == t {
      OwnStepReadsOn(env, run.states[i].core, run.states[i].threads[t], run.actions[i],
                     run.states[i + 1].core, run.states[i + 1].threads[t]);
    }
  }

  lemma WellFormedIn(env: Env, s: State, t: nat)
    requires Inv(env, s) && t < |s.threads|
    ensures WellFormed(s.threads[t])
  {
  }

  lemma ShapedIn(env: Env, s: State)
    requires Inv(env, s)
    ensures Shaped(s.core)
  {
  }

  lemma SampledNow(env: Env, run: Run, i: nat, t: nat)
    requires |run.states| == |run.actions| + 1 && 0 < i < |run.states| && run.actions[i - 1] == Sample(t)
    requires t < |run.states[i - 1].threads| && Shaped(run.states[i - 1].core)
    requires t < |run.states[i].threads| && Shaped(run.states[i].core)
    requires var after := run.states[i].threads[t];
             Reading(after) && after.snap < 2 && after.begin == Shown(run.states[i - 1].core.snapshots[after.snap])
    ensures SampledAt(run, i - 1, i, t)
  {
  }

  lemma SampledStill(env: Env, run: Run, j: nat, i: nat, t: nat)
    requires |run.states| == |run.actions| + 1 && 0 < i < |run.states| && SampledAt(run, j, i - 1, t)
    requires t < |run.states[i].threads| && Shaped(run.states[i].core)
    requires var before, after := run.states[i - 1].threads[t], run.states[i].threads[t];
             Reading(after) && after.query == before.query && after.snap == before.snap && after.begin == before.begin
    ensures SampledAt(run, j, i, t)
  {
    hide Shaped;
  }

  /** Every lookup began with a read of the sequence. */
  lemma {:induction false} LookupWasSampled(env: Env, run: Run, i: nat, t: nat) returns (j: nat)
    requires IsRun(env, run) && i < |run.states|
    requires t < |run.states[i].threads| && Reading(run.states[i].threads[t])
    ensures SampledAt(run, j, i, t)
  {
    hide Inv, Bounded, Step, Reading, Shaped, SampledAt;
    LookupStarted(env, run, i, t);
    ReadsOn(env, run, i - 1, t);
    RunKeepsInv(env, run, i);
    ShapedIn(env, run.states[i]);
    if run.actions[i - 1] == Sample(t) {
      j := i - 1;
      SampledNow(env, run, i, t);
    } else {
      j := LookupWasSampled(env, run, i - 1, t);
      SampledStill(env, run, j, i, t);
    }
  }

  lemma LookupStarted(env: Env, run: Run, i: nat, t: nat)
    requires IsRun(env, run) && i < |run.states|
    requires t < |run.states[i].threads| && Reading(run.states[i].threads[t])
    ensures i > 0
  {
  }

  /** A load of the sequence word yields 0 exactly while the snapshot is cleared. */
  lemma ZeroMeansCleared(env: Env, run: Run, i: nat, k: nat)
    requires IsRun(env, run) && i < |run.states| && k < 2
    ensures Shaped(run.states[i].core)
    ensures Shown(run.states[i].core.snapshots[k]) == 0 <==> run.states[i].core.snapshots[k].cleared
  {
    RunKeepsInv(env, run, i);
  }

  /**
   * Exactly when validation lets through a copy that need not be a rule: when it succeeds with both
   * reads of the sequence made while the snapshot was cleared. In particular it always succeeds then.
   */
  lemma UnsoundExactlyInClears(env: Env, run: Run, i: nat) returns (j: nat)
    requires IsRun(env, run) && i < |run.actions| && run.actions[i].Validate?
    ensures var t := run.actions[i].t;
            && SampledAt(run, j, i, t) && t < |run.states[i + 1].threads|
            && var snap := run.states[i].threads[t].snap;
               var accepted := run.states[i + 1].threads[t];
               accepted.Holding? && accepted.begin == 0 <==>
               run.states[j].core.snapshots[snap].cleared && run.states[i].core.snapshots[snap].cleared
  {
    hide Inv, ReaderStep, WriterStep, OwnerStep, ReaderOk, ThreadOk, Bounded, Init, Moves;
    var t := run.actions[i].t;
    At(env, run, i);
    var s, s' := run.states[i], run.states[i + 1];
    ShapedIn(env, s);
    ValidateDecides(env, s.core, s.threads[t], run.actions[i], s'.core, s'.threads[t]);
    j := LookupWasSampled(env, run, i, t);
    var snap := run.states[i].threads[t].snap;
    ZeroMeansCleared(env, run, j, snap);
    ZeroMeansCleared(env, run, i, snap);
  }

  lemma ValidateDecides(env: Env, core: Core, thread: Thread, a: Action, core': Core, thread': Thread)
    requires Shaped(core) && a.Validate?
    requires ReaderStep(env, core, thread, a, thread') || WriterStep(core, thread, a, core', thread')
             || OwnerStep(env, core, thread, a, core', thread')
    ensures thread.Copying? && thread.snap < 2
    ensures if thread.begin % 2 == 0 && Shown(core.snapshots[thread.snap]) == thread.begin
            then thread'.Holding? && thread'.begin == thread.begin else thread' == Idle
  {
    hide OwnerApply, OwnerPhase;
  }

  /** Even such a copy has no slot or one that was handed out, so following it stays in the pool. */
  lemma EveryCopySlotWasHandedOut(env: Env, run: Run, i: nat, t: nat)
    requires IsRun(env, run) && i < |run.states|
    requires t < |run.states[i].threads| && run.states[i].threads[t].Holding?
    ensures var word := run.states[i].threads[t].copy[SLOT_WORD];
            word != 0 ==> word <= POOL_SIZE && exists tenure :: tenure in run.states[i].core.tenants && tenure.slot == word - 1
  {
    RunKeepsInv(env, run, i);
    var core, thread := run.states[i].core, run.states[i].threads[t];
    assert ThreadOk(env, core, thread);
    var word := thread.copy[SLOT_WORD];
    if word != 0 {
      assert Handed(core, word - 1);
    }
  }

  // ---- Slots -------------------------------------------------------------------------------

  /** While nobody reloads, the used slots are exactly the active rules', at their generations. */
  lemma BetweenReloadsSlotsMatch(env: Env, run: Run, i: nat)
    requires IsRun(env, run) && i < |run.states| && run.states[i].core.cached != RELOADING
    ensures Shaped(run.states[i].core)
    ensures var core := run.states[i].core;
            && (forall s | 0 <= s < POOL_SIZE :: core.pool[s].used <==> s in HeldSlots(core.lists[core.active]))
            && (forall r | r in core.lists[core.active] ::
                  r.slot.Some? && r.slot.value < POOL_SIZE && r.generation == core.pool[r.slot.value].generation)
  {
    RunKeepsInv(env, run, i);
  }

  /** No assignment of any run finds the pool exhausted. */
  lemma PoolNeverExhausted(env: Env, run: Run, i: nat)
    requires IsRun(env, run) && i < |run.actions|
    ensures !run.actions[i].NoSlot?
  {
    At(env, run, i);
    var s, a := run.states[i], run.actions[i];
    if a.NoSlot? {
      var phase := s.threads[a.t].phase;
      NeverOutOfSlots(s.core, phase.texts, phase.next, phase.cursor);
    }
  }

  /**
   * What a finished reload does to the slots. A rule whose text survives keeps the slot and the
   * generation of the first active rule with that text; any other rule gets a slot that no rule
   * of either snapshot shares; rules with different texts have different slots; and a slot whose
   * rule left is free and one generation later.
   */
  ghost predicate FollowsTexts(departing: seq<Rule>, rules: seq<Rule>, pool: seq<Slot>) {
    && (forall k | 0 <= k < |rules| ::
          var kept := FindActive(departing, rules[k].text);
          && rules[k].slot.Some? && rules[k].slot.value < |pool|
          && rules[k].generation == pool[rules[k].slot.value].generation
          && if kept.Some? then rules[k].slot == kept
             else rules[k].slot.value !in HeldSlots(departing)
                  && forall j | 0 <= j < |rules| && j != k :: rules[j].slot != rules[k].slot)
    && (forall j, k | 0 <= j < |rules| && 0 <= k < |rules| && rules[j].text != rules[k].text ::
          rules[j].slot != rules[k].slot)
    && (forall r | r in departing ::
          && r.slot.Some? && r.slot.value < |pool|
          && var slot := pool[r.slot.value];
             if r.slot.value in HeldSlots(rules) then slot.used && slot.generation == r.generation
             else !slot.used && slot.generation == r.generation + 1)
  }

  lemma SwapFollowsTexts(core: Core)
    requires Shaped(core) && ReleasingOk(core, core.lists[Next(core)], POOL_SIZE)
    ensures FollowsTexts(core.lists[core.active], core.lists[Next(core)], core.pool)
  {
    var departing, rules := core.lists[core.active], core.lists[Next(core)];
    forall k | 0 <= k < |rules| ensures rules[k] in rules && WellAssigned(departing, Texts(rules), SlotsOf(rules), k) {
      assert Succeeds(departing, rules);
    }
    forall j, k | 0 <= j < |rules| && 0 <= k < |rules| && j != k && FindActive(departing, rules[k].text).None?
      ensures rules[j].slot != rules[k].slot
    {
      assert SlotsOf(rules)[j] != SlotsOf(rules)[k];
    }
  }

  lemma ReloadFollowsTexts(env: Env, run: Run, i: nat)
    requires IsRun(env, run) && i < |run.actions| && run.actions[i].Swap?
    ensures Shaped(run.states[i].core) && Shaped(run.states[i + 1].core)
    ensures var before, after := run.states[i].core, run.states[i + 1].core;
            && after.active == 1 - before.active < 2
            && FollowsTexts(before.lists[before.active], after.lists[after.active], after.pool)
  {
    At(env, run, i);
    RunKeepsInv(env, run, i + 1);
    SwapFollowsTexts(run.states[i].core);
  }

  // ---- @first ------------------------------------------------------------------------------

  /** Step i is a claim that succeeded under `tenure`. */
  ghost predicate ClaimSucceeds(run: Run, i: nat, tenure: Tenure)
    requires |run.states| == |run.actions| + 1 && i < |run.actions|
  {
    var a, before, after := run.actions[i], run.states[i], run.states[i + 1];
    && a.Swing? && a.t < |before.threads| && a.t < |after.threads|
    && before.threads[a.t].Trying? && after.threads[a.t].Counting?
    && before.threads[a.t].copy[SLOT_WORD] > 0 && TenureOf(before.threads[a.t].copy) == tenure
  }

  /** Successful claims under `tenure` among the first n steps. */
  ghost function ClaimsMade(run: Run, tenure: Tenure, n: nat): nat
    requires |run.states| == |run.actions| + 1 && n <= |run.actions|
  {
    if n == 0 then 0 else ClaimsMade(run, tenure, n - 1) + if ClaimSucceeds(run, n - 1, tenure) then 1 else 0
  }

  lemma StepCountsClaim(env: Env, run: Run, tenure: Tenure, i: nat)
    requires IsRun(env, run) && i < |run.actions|
    ensures Wins(run.states[i + 1].core.wins, tenure) ==
            Wins(run.states[i].core.wins, tenure) + if ClaimSucceeds(run, i, tenure) then 1 else 0
  {
    var s, a, s' := run.states[i], run.actions[i], run.states[i + 1];
    assert Moves(env, run, i);
    if OwnerStep(env, s.core, s.threads[a.t], a, s'.core, s'.threads[a.t]) {
      OwnerSparesActive(env, s.core, s.threads[a.t], a, s'.core);
    }
  }

  lemma {:induction false} WinsCountClaims(env: Env, run: Run, tenure: Tenure, n: nat)
    requires IsRun(env, run) && n <= |run.actions|
    ensures Wins(run.states[n].core.wins, tenure) == ClaimsMade(run, tenure, n)
  {
    if n > 0 {
      WinsCountClaims(env, run, tenure, n - 1);
      StepCountsClaim(env, run, tenure, n - 1);
    }
  }

  /** Step i is such a claim by a copy that was accepted with a sampled sequence of 0. */
  ghost predicate TornClaimSucceeds(run: Run, i: nat, tenure: Tenure)
    requires |run.states| == |run.actions| + 1 && i < |run.actions|
  {
    ClaimSucceeds(run, i, tenure) && run.states[i].threads[run.actions[i].t].begin == 0
  }

  lemma StepRecordsTornClaim(env: Env, run: Run, tenure: Tenure, i: nat)
    requires IsRun(env, run) && i < |run.actions|
    ensures tenure in run.states[i + 1].core.torn <==>
              tenure in run.states[i].core.torn || TornClaimSucceeds(run, i, tenure)
  {
    var s, a, s' := run.states[i], run.actions[i], run.states[i + 1];
    assert Moves(env, run, i);
    if OwnerStep(env, s.core, s.threads[a.t], a, s'.core, s'.threads[a.t]) {
      OwnerSparesActive(env, s.core, s.threads[a.t], a, s'.core);
    }
  }

  lemma {:induction false} TornClaimsAreRecorded(env: Env, run: Run, tenure: Tenure, n: nat)
    requires IsRun(env, run) && n <= |run.actions|
    ensures tenure in run.states[n].core.torn <==> exists i :: 0 <= i < n && TornClaimSucceeds(run, i, tenure)
  {
    if n > 0 {
      TornClaimsAreRecorded(env, run, tenure, n - 1);
      StepRecordsTornClaim(env, run, tenure, n - 1);
    }
  }

  /**
   * An `@first=N` rule makes at most min(N, 2^32 - 1) successful claims from the moment a slot is
   * handed to its text until the slot's generation moves on, over every reload that keeps it, unless
   * a copy accepted with a sampled sequence of 0 has claimed in its name. Nothing is ever claimed
   * under a tenure no rule holds, and the count always fits its half of the claim word.
   */
  lemma FirstIsNeverOverdrawn(env: Env, run: Run, tenure: Tenure, n: nat)
    requires IsRun(env, run) && n <= |run.actions|
    ensures ClaimsMade(run, tenure, n) > 0 ==> tenure in run.states[n].core.tenants
    ensures ClaimsMade(run, tenure, n) <= 0xffff_ffff
    ensures tenure in run.states[n].core.tenants && (forall i | 0 <= i < n :: !TornClaimSucceeds(run, i, tenure)) ==>
              ClaimsMade(run, tenure, n) <= First(env, run.states[n].core.tenants[tenure])
  {
    RunKeepsInv(env, run, n);
    WinsCountClaims(env, run, tenure, n);
    TornClaimsAreRecorded(env, run, tenure, n);
  }

  /**
   * Whatever such copies did before: a copy accepted with any other sequence claims only within the
   * limit. So the claim that overdraws a limit is always one of a copy accepted with sequence 0.
   */
  lemma WholeCopiesClaimWithinLimit(env: Env, run: Run, tenure: Tenure, i: nat)
    requires IsRun(env, run) && i < |run.actions|
    requires ClaimSucceeds(run, i, tenure) && !TornClaimSucceeds(run, i, tenure)
    ensures tenure in run.states[i].core.tenants
    ensures ClaimsMade(run, tenure, i + 1) <= First(env, run.states[i].core.tenants[tenure])
  {
    At(env, run, i);
    WinsCountClaims(env, run, tenure, i);
    var s, a := run.states[i], run.actions[i];
    SwungWord(env, s.core, s.threads[a.t]);
  }

  lemma StepKeepsTenure(env: Env, run: Run, tenure: Tenure, i: nat)
    requires IsRun(env, run) && i < |run.actions| && tenure in run.states[i].core.tenants
    ensures tenure in run.states[i + 1].core.tenants
    ensures run.states[i + 1].core.tenants[tenure] == run.states[i].core.tenants[tenure]
  {
    hide HistoryOk, RulesOk, ClaimsOk, ReaderOk, OwnerOk, Quiet, Elected, Bounded, Evolves;
    At(env, run, i);
    var s, a := run.states[i], run.actions[i];
    assert Moves(env, run, i);
    if a.Hand? {
      HandKeepsCore(env, s.core, s.threads[a.t], a, run.states[i + 1].core);
    }
  }

  /** A tenure, once handed to a text, belongs to it for the rest of the run. */
  lemma {:induction false} TenuresAreForever(env: Env, run: Run, tenure: Tenure, i: nat, j: nat)
    requires IsRun(env, run) && i <= j < |run.states| && tenure in run.states[i].core.tenants
    ensures tenure in run.states[j].core.tenants
    ensures run.states[j].core.tenants[tenure] == run.states[i].core.tenants[tenure]
    decreases j - i
  {
    if i < j {
      TenuresAreForever(env, run, tenure, i, j - 1);
      StepKeepsTenure(env, run, tenure, j - 1);
    }
  }

  /**
   * A copy that outlived its rule never spends the allowance of the rule that inherited the slot:
   * once the slot is handed on, its CAS fails and leaves shared memory as it was.
   */
  lemma StaleCopyCannotClaim(env: Env, run: Run, i: nat)
    requires IsRun(env, run) && i < |run.actions| && run.actions[i].Swing?
    requires var s, t := run.states[i], run.actions[i].t;
             && Shaped(s.core)
             && t < |s.threads| && s.threads[t].Trying?
             && 1 <= s.threads[t].copy[SLOT_WORD] <= POOL_SIZE
             && var slot := s.core.pool[s.threads[t].copy[SLOT_WORD] - 1];
                && slot.used && slot.generation != s.threads[t].copy[GENERATION_WORD]
    ensures run.states[i + 1].core == run.states[i].core
  {
    At(env, run, i);
    var s, a, s' := run.states[i], run.actions[i], run.states[i + 1];
    StaleSwingFails(env, s.core, s.threads[a.t], a, s'.core, s'.threads[a.t]);
  }

  lemma StaleSwingFails(env: Env, core: Core, thread: Thread, a: Action, core': Core, thread': Thread)
    requires Shaped(core) && CoreOk(env, core) && Bounded(core)
    requires WellFormed(thread) && ThreadOk(env, core, thread)
    requires a.Swing? && thread.Trying? && WriterStep(core, thread, a, core', thread')
    requires var slot := core.pool[thread.copy[SLOT_WORD] - 1];
             slot.used && slot.generation != thread.copy[GENERATION_WORD]
    ensures core' == core
  {
    assert SlotClaimsOk(core, thread.copy[SLOT_WORD] - 1);
  }
}
