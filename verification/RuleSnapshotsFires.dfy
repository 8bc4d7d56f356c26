/**
 * How often copies fire, over whole runs: every hit of an `@first` rule was claimed first, a claim
 * is refused only where the allowance is spent or the slot has a new rule, and the hits a slot
 * shows are the ones recorded since it was cleared.
 */
module RuleSnapshotsFires {
  import opened Options
  import opened HitPool
  import opened RuleSnapshots
  import opened RuleSnapshotsSafety
  import opened RuleSnapshotsTheorems

  // ---- Every limited hit was claimed ---------------------------------------------------------

  predicate InHand(thread: Thread) {
    thread.Holding? || thread.Claiming? || thread.Trying? || thread.Counting?
  }

  /**
   * The thread has a copy of an `@first` rule in hand, with the rule's slot; if `whole`, one that was
   * accepted with a sampled sequence other than 0.
   */
  ghost predicate Limited(thread: Thread, tenure: Tenure, whole: bool) {
    && InHand(thread)
    && thread.copy[SLOT_WORD] > 0 && thread.copy[FIRST_WORD] != 0 && TenureOf(thread.copy) == tenure
    && (whole ==> thread.begin != 0)
  }

  /** What becomes of such a copy: it claims, counts its hit, or is left between the two. */
  datatype Event = Won | Fired | Abandoned

  ghost predicate Happens(run: Run, i: nat, event: Event, tenure: Tenure, whole: bool)
    requires |run.states| == |run.actions| + 1 && i < |run.actions|
  {
    var a, before := run.actions[i], run.states[i];
    && a.t < |before.threads| && (whole ==> InHand(before.threads[a.t]) && before.threads[a.t].begin != 0)
    && match event
       case Won => ClaimSucceeds(run, i, tenure)
       case Fired => a.Record? && Limited(before.threads[a.t], tenure, whole)
       case Abandoned => a.Leave? && before.threads[a.t].Counting? && Limited(before.threads[a.t], tenure, whole)
  }

  /** How often, among the first n steps. */
  ghost function Times(run: Run, event: Event, tenure: Tenure, whole: bool, n: nat): nat
    requires |run.states| == |run.actions| + 1 && n <= |run.actions|
  {
    if n == 0 then 0
    else Times(run, event, tenure, whole, n - 1) + if Happens(run, n - 1, event, tenure, whole) then 1 else 0
  }

  ghost predicate Due(thread: Thread, tenure: Tenure, whole: bool) {
    thread.Counting? && Limited(thread, tenure, whole)
  }

  /** Threads about to count such a hit. */
  ghost function AllDue(threads: seq<Thread>, tenure: Tenure, whole: bool): nat {
    if threads == [] then 0
    else AllDue(threads[..|threads| - 1], tenure, whole) + if Due(threads[|threads| - 1], tenure, whole) then 1 else 0
  }

  lemma {:induction false} DueUpdate(threads: seq<Thread>, t: nat, thread': Thread, tenure: Tenure, whole: bool)
    requires t < |threads|
    ensures AllDue(threads[t := thread'], tenure, whole) + (if Due(threads[t], tenure, whole) then 1 else 0) ==
            AllDue(threads, tenure, whole) + if Due(thread', tenure, whole) then 1 else 0
  {
    hide Due;
    var last := |threads| - 1;
    if t == last {
      assert threads[t := thread'][..last] == threads[..last];
    } else {
      DueUpdate(threads[..last], t, thread', tenure, whole);
      assert threads[t := thread'][..last] == threads[..last][t := thread'];
    }
  }

  lemma {:induction false} NoneDue(threads: seq<Thread>, tenure: Tenure, whole: bool)
    requires forall t | 0 <= t < |threads| :: threads[t] == Idle
    ensures AllDue(threads, tenure, whole) == 0
  {
    if threads != [] {
      NoneDue(threads[..|threads| - 1], tenure, whole);
    }
  }

  /** The same for the thread that steps, which claims only for a copy of an `@first` rule. */
  lemma OwnStepBalances(env: Env, core: Core, thread: Thread, a: Action, core': Core, thread': Thread,
                        tenure: Tenure, whole: bool)
    requires Shaped(core) && (thread.Trying? ==> thread.copy[FIRST_WORD] != 0)
    requires ReaderStep(env, core, thread, a, thread') || WriterStep(core, thread, a, core', thread')
             || OwnerStep(env, core, thread, a, core', thread')
    ensures var won := a.Swing? && thread.Trying? && thread'.Counting? && Limited(thread, tenure, whole);
            (if Due(thread, tenure, whole) then 1 else 0) + (if won then 1 else 0) ==
            (if Due(thread', tenure, whole) then 1 else 0) +
            if (a.Record? && Limited(thread, tenure, whole)) || (a.Leave? && Due(thread, tenure, whole)) then 1 else 0
  {
    hide OwnerEnabled, OwnerApply, OwnerPhase;
  }

  lemma TryingIsLimited(env: Env, core: Core, thread: Thread)
    requires Shaped(core) && WellFormed(thread) && ThreadOk(env, core, thread) && thread.Trying?
    ensures thread.copy[FIRST_WORD] != 0 && thread.copy[SLOT_WORD] != 0
  {
    hide CopyOk;
  }

  /** A step makes a hit due by a claim alone, and a hit due is counted or abandoned. */
  lemma StepBalances(env: Env, run: Run, tenure: Tenure, whole: bool, i: nat)
    requires IsRun(env, run) && i < |run.actions|
    ensures run.actions[i].t < |run.states[i].threads| == |run.states[i + 1].threads|
    ensures var t := run.actions[i].t;
            (if Due(run.states[i].threads[t], tenure, whole) then 1 else 0) +
            (if Happens(run, i, Won, tenure, whole) then 1 else 0) ==
            (if Due(run.states[i + 1].threads[t], tenure, whole) then 1 else 0) +
            (if Happens(run, i, Fired, tenure, whole) then 1 else 0) +
            if Happens(run, i, Abandoned, tenure, whole) then 1 else 0
  {
    hide Inv, ThreadOk, WellFormed, ReaderStep, WriterStep, OwnerStep, Bounded;
    At(env, run, i);
    var s, a, s' := run.states[i], run.actions[i], run.states[i + 1];
    ShapedIn(env, s);
    if s.threads[a.t].Trying? {
      TryingIsLimited(env, s.core, s.threads[a.t]);
    }
    OwnStepBalances(env, s.core, s.threads[a.t], a, s'.core, s'.threads[a.t], tenure, whole);
  }

  lemma ThreadsStep(env: Env, run: Run, i: nat)
    requires IsRun(env, run) && i < |run.actions|
    requires run.actions[i].t < |run.states[i].threads| == |run.states[i + 1].threads|
    ensures var t := run.actions[i].t;
            run.states[i + 1].threads == run.states[i].threads[t := run.states[i + 1].threads[t]]
  {
    assert Moves(env, run, i);
  }

  lemma AllBalances(env: Env, run: Run, tenure: Tenure, whole: bool, i: nat)
    requires IsRun(env, run) && i < |run.actions|
    ensures AllDue(run.states[i].threads, tenure, whole) + (if Happens(run, i, Won, tenure, whole) then 1 else 0) ==
            AllDue(run.states[i + 1].threads, tenure, whole) +
            (if Happens(run, i, Fired, tenure, whole) then 1 else 0) +
            if Happens(run, i, Abandoned, tenure, whole) then 1 else 0
  {
    hide Due, AllDue, Happens, Init, Moves;
    StepBalances(env, run, tenure, whole, i);
    ThreadsStep(env, run, i);
    var t := run.actions[i].t;
    DueUpdate(run.states[i].threads, t, run.states[i + 1].threads[t], tenure, whole);
  }

  /** Every claim ends in one hit, unless its thread leaves first; there is no other such hit. */
  lemma {:induction false} FiresAreClaims(env: Env, run: Run, tenure: Tenure, whole: bool, n: nat)
    requires IsRun(env, run) && n <= |run.actions|
    ensures Times(run, Fired, tenure, whole, n) + Times(run, Abandoned, tenure, whole, n)
            + AllDue(run.states[n].threads, tenure, whole) == Times(run, Won, tenure, whole, n)
  {
    hide AllDue, Happens, Moves;
    if n == 0 {
      NoneDue(run.states[0].threads, tenure, whole);
    } else {
      hide Init;
      FiresAreClaims(env, run, tenure, whole, n - 1);
      AllBalances(env, run, tenure, whole, n - 1);
    }
  }

  lemma {:induction false} ClaimsOfAll(run: Run, tenure: Tenure, n: nat)
    requires |run.states| == |run.actions| + 1 && n <= |run.actions|
    ensures Times(run, Won, tenure, false, n) == ClaimsMade(run, tenure, n)
    ensures Times(run, Won, tenure, true, n) <= ClaimsMade(run, tenure, n)
  {
    if n > 0 {
      ClaimsOfAll(run, tenure, n - 1);
    }
  }

  /** Claims of whole copies stay within the limit, whatever torn copies claim besides. */
  lemma {:induction false} WholeClaimsWithinLimit(env: Env, run: Run, tenure: Tenure, n: nat)
    requires IsRun(env, run) && n <= |run.actions|
    ensures Times(run, Won, tenure, true, n) > 0 ==>
              && tenure in run.states[n].core.tenants
              && Times(run, Won, tenure, true, n) <= Allowance(First(env, run.states[n].core.tenants[tenure]))
  {
    hide First, Init, Moves, ClaimSucceeds, ClaimsMade;
    if n > 0 {
      WholeClaimsWithinLimit(env, run, tenure, n - 1);
      if Happens(run, n - 1, Won, tenure, true) {
        WholeCopiesClaimWithinLimit(env, run, tenure, n - 1);
        FirstIsNeverOverdrawn(env, run, tenure, n);
        ClaimsOfAll(run, tenure, n);
      }
      if tenure in run.states[n - 1].core.tenants {
        StepKeepsTenure(env, run, tenure, n - 1);
      }
    }
  }

  /**
   * An `@first=N` rule fires at most min(N, 2^32 - 1) times under a tenure by copies accepted with a
   * sequence other than 0, whatever other copies do; and by copies of any kind, if none accepted with
   * sequence 0 has claimed. At most 2^32 - 1 times it fires in any case.
   */
  lemma FiresWithinLimit(env: Env, run: Run, tenure: Tenure, n: nat)
    requires IsRun(env, run) && n <= |run.actions|
    ensures Times(run, Fired, tenure, false, n) <= 0xffff_ffff
    ensures Times(run, Fired, tenure, false, n) > 0 ==> tenure in run.states[n].core.tenants
    ensures Times(run, Fired, tenure, true, n) > 0 ==> tenure in run.states[n].core.tenants
    ensures tenure in run.states[n].core.tenants ==>
              Times(run, Fired, tenure, true, n) <= First(env, run.states[n].core.tenants[tenure])
    ensures tenure in run.states[n].core.tenants && (forall i | 0 <= i < n :: !TornClaimSucceeds(run, i, tenure)) ==>
              Times(run, Fired, tenure, false, n) <= First(env, run.states[n].core.tenants[tenure])
  {
    hide First, Init, Moves, AllDue, TornClaimSucceeds, Times, ClaimsMade;
    FiresAreClaims(env, run, tenure, false, n);
    FiresAreClaims(env, run, tenure, true, n);
    ClaimsOfAll(run, tenure, n);
    WholeClaimsWithinLimit(env, run, tenure, n);
    FirstIsNeverOverdrawn(env, run, tenure, n);
  }

  // ---- Nothing else is refused ---------------------------------------------------------------

  /** The tenure's slot was handed out again since. */
  ghost predicate HandedOn(core: Core, tenure: Tenure) {
    exists later :: later in core.tenants && later.slot == tenure.slot && later.generation > tenure.generation
  }

  /** A claim word carries the tag of the last rule its slot was handed to. */
  ghost predicate TaggedLast(core: Core) {
    forall tenure | tenure in core.tenants ::
      tenure.slot < |core.pool| && tenure.generation <= Tag(core.pool[tenure.slot].claimed)
  }

  lemma OwnerKeepsTags(env: Env, core: Core, thread: Thread, a: Action, core': Core)
    requires Shaped(core) && ClaimsOk(env, core) && Bounded(core) && TaggedLast(core)
    requires thread.Owner? && OwnerEnabled(env, core, thread.phase, a) && core' == OwnerApply(env, core, thread, a)
    ensures TaggedLast(core')
  {
    hide SlotClaimsOk, WinsOk;
    OwnersTakeOwnerActions(env, core, thread.phase, a);
    if a.Hand? {
      FreshClaimWord(core.pool[thread.phase.slot].generation, 0);
    }
  }

  lemma WriterKeepsTags(env: Env, core: Core, thread: Thread, a: Action, core': Core, thread': Thread)
    requires Shaped(core) && TaggedLast(core) && (thread.Trying? ==> Claims(thread.word) < TWO32 - 1)
    requires WriterStep(core, thread, a, core', thread')
    ensures TaggedLast(core')
  {
    if a.Swing? {
      ClaimOnce(thread.word);
    }
  }

  lemma TryingBelowLimit(env: Env, core: Core, thread: Thread)
    requires Shaped(core) && WellFormed(thread) && ThreadOk(env, core, thread) && thread.Trying?
    ensures Claims(thread.word) < TWO32 - 1
  {
    hide CopyOk;
  }

  lemma StepKeepsTags(env: Env, run: Run, i: nat)
    requires IsRun(env, run) && i < |run.actions| && TaggedLast(run.states[i].core)
    ensures TaggedLast(run.states[i + 1].core)
  {
    hide Inv, CoreOk, ThreadOk, WellFormed, ReaderStep, WriterStep, OwnerStep, Bounded, TaggedLast;
    At(env, run, i);
    var s, a, s' := run.states[i], run.actions[i], run.states[i + 1];
    PartsOf(env, s);
    if OwnerStep(env, s.core, s.threads[a.t], a, s'.core, s'.threads[a.t]) {
      OwnerStepKeepsTags(env, s.core, s.threads[a.t], a, s'.core, s'.threads[a.t]);
    } else if WriterStep(s.core, s.threads[a.t], a, s'.core, s'.threads[a.t]) {
      if s.threads[a.t].Trying? {
        TryingBelowLimit(env, s.core, s.threads[a.t]);
      }
      WriterKeepsTags(env, s.core, s.threads[a.t], a, s'.core, s'.threads[a.t]);
    }
  }

  lemma OwnerStepKeepsTags(env: Env, core: Core, thread: Thread, a: Action, core': Core, thread': Thread)
    requires Shaped(core) && ClaimsOk(env, core) && Bounded(core) && TaggedLast(core)
    requires OwnerStep(env, core, thread, a, core', thread')
    ensures TaggedLast(core')
  {
    hide ClaimsOk, Bounded, TaggedLast, OwnerEnabled, OwnerApply;
    OwnerKeepsTags(env, core, thread, a, core');
  }

  lemma PartsOf(env: Env, s: State)
    requires Inv(env, s)
    ensures Shaped(s.core) && RulesOk(s.core) && ClaimsOk(env, s.core)
  {
    hide RulesOk, ClaimsOk;
  }

  lemma {:induction false} TagsAreLast(env: Env, run: Run, i: nat)
    requires IsRun(env, run) && i < |run.states|
    ensures TaggedLast(run.states[i].core)
  {
    if i > 0 {
      hide Init, Moves, TaggedLast;
      TagsAreLast(env, run, i - 1);
      StepKeepsTags(env, run, i - 1);
    }
  }

  /** A whole copy's claim word, when it is loaded: its own tenure's count, or a later tenure's. */
  lemma LoadedWord(env: Env, core: Core, thread: Thread)
    requires Shaped(core) && RulesOk(core) && ClaimsOk(env, core) && TaggedLast(core)
    requires WellFormed(thread) && ThreadOk(env, core, thread) && thread.Claiming? && thread.begin != 0
    ensures 1 <= thread.copy[SLOT_WORD] <= POOL_SIZE && TenureOf(thread.copy) in core.tenants
    ensures thread.copy[GENERATION_WORD] < TWO32
    ensures var tenure, slot := TenureOf(thread.copy), core.pool[thread.copy[SLOT_WORD] - 1];
            && thread.copy[FIRST_WORD] == First(env, core.tenants[tenure])
            && (Tag(slot.claimed) == tenure.generation <==> !HandedOn(core, tenure))
            && (Tag(slot.claimed) == tenure.generation ==> Claims(slot.claimed) == Wins(core.wins, tenure))
            && (slot.generation == tenure.generation ==> !HandedOn(core, tenure))
  {
    hide Selected, RulesOk, WinsOk;
    CopyTenure(env, core, thread.query, thread.copy);
    var tenure := TenureOf(thread.copy);
    assert SlotClaimsOk(core, tenure.slot);
    if Tag(core.pool[tenure.slot].claimed) != tenure.generation {
      var last := Tenure(tenure.slot, Tag(core.pool[tenure.slot].claimed));
      assert last in core.tenants && last.generation > tenure.generation;
    }
  }

  lemma LoadDecides(env: Env, core: Core, thread: Thread, a: Action, thread': Thread)
    requires Shaped(core) && a.LoadClaims? && ReaderStep(env, core, thread, a, thread')
    ensures thread.Claiming? && 1 <= thread.copy[SLOT_WORD] <= POOL_SIZE
    ensures var word := core.pool[thread.copy[SLOT_WORD] - 1].claimed;
            if Tag(word) == thread.copy[GENERATION_WORD] % TWO32 && Claims(word) < Allowance(thread.copy[FIRST_WORD])
            then thread' == Trying(thread.query, thread.begin, thread.copy, word)
            else thread' == Idle
  {
  }

  /**
   * A claim is refused exactly when the tenure's slot has been handed to a later rule or the claims
   * made under the tenure have reached min(N, 2^32 - 1). At the slot's present generation the first
   * cannot be, so there a call is let through as long as the allowance lasts.
   */
  lemma RefusedOnlyAtLimit(env: Env, run: Run, i: nat)
    requires IsRun(env, run) && i < |run.actions| && run.actions[i].LoadClaims?
    requires var t := run.actions[i].t; t < |run.states[i].threads| && run.states[i].threads[t].Claiming?
    requires run.states[i].threads[run.actions[i].t].begin != 0
    ensures var t, core := run.actions[i].t, run.states[i].core;
            var copy := run.states[i].threads[t].copy;
            && Shaped(core) && t < |run.states[i + 1].threads| && 1 <= copy[SLOT_WORD] <= POOL_SIZE
            && var tenure := TenureOf(copy);
               && tenure in core.tenants
               && (run.states[i + 1].threads[t].Trying? || run.states[i + 1].threads[t] == Idle)
               && (run.states[i + 1].threads[t] == Idle <==>
                     || HandedOn(core, tenure)
                     || ClaimsMade(run, tenure, i) >= Allowance(First(env, core.tenants[tenure])))
               && (core.pool[tenure.slot].generation == tenure.generation ==> !HandedOn(core, tenure))
  {
    hide Inv, RulesOk, ClaimsOk, ThreadOk, ReaderStep, WriterStep, OwnerStep, Bounded, TaggedLast, HandedOn, ClaimsMade;
    At(env, run, i);
    var s, a := run.states[i], run.actions[i];
    PartsOf(env, s);
    TagsAreLast(env, run, i);
    LoadedWord(env, s.core, s.threads[a.t]);
    WinsCountClaims(env, run, TenureOf(s.threads[a.t].copy), i);
    OnlyReadersLoad(env, s.core, s.threads[a.t], a, run.states[i + 1].core, run.states[i + 1].threads[a.t]);
    LoadDecides(env, s.core, s.threads[a.t], a, run.states[i + 1].threads[a.t]);
  }

  lemma OnlyReadersLoad(env: Env, core: Core, thread: Thread, a: Action, core': Core, thread': Thread)
    requires Shaped(core) && thread.Claiming? && a.LoadClaims?
    ensures !WriterStep(core, thread, a, core', thread') && !OwnerStep(env, core, thread, a, core', thread')
  {
  }

  /** An active rule has this tenure: its text is still in the file and kept its slot. */
  ghost predicate IsActive(core: Core, tenure: Tenure)
    requires Shaped(core)
  {
    exists r :: r in core.lists[core.active] && r.slot == Some(tenure.slot) && r.generation == tenure.generation
  }

  lemma CurrentIsActive(env: Env, core: Core, query: nat, copy: Words)
    requires Shaped(core) && RulesOk(core) && ClaimsOk(env, core) && Quiet(core)
    requires Selected(env, core.history, query, copy)
    ensures 1 <= copy[SLOT_WORD] <= POOL_SIZE
    ensures core.pool[copy[SLOT_WORD] - 1].generation == copy[GENERATION_WORD] <==> IsActive(core, TenureOf(copy))
  {
    hide Selected, RulesOk, WinsOk;
    CopyTenure(env, core, query, copy);
    var tenure := TenureOf(copy);
    if core.pool[tenure.slot].generation == tenure.generation {
      assert SlotClaimsOk(core, tenure.slot);
      assert tenure.slot in HeldSlots(core.lists[core.active]);
    }
  }

  lemma FireDecides(env: Env, core: Core, thread: Thread, a: Action, core': Core, thread': Thread)
    requires Shaped(core) && a.Fire? && thread.Holding? && thread.copy[SLOT_WORD] != 0
    requires ReaderStep(env, core, thread, a, thread') || WriterStep(core, thread, a, core', thread')
             || OwnerStep(env, core, thread, a, core', thread')
    ensures thread.copy[SLOT_WORD] <= POOL_SIZE
    ensures var s := thread.copy[SLOT_WORD] - 1;
            if core.pool[s].generation != thread.copy[GENERATION_WORD] then thread' == Idle
            else if thread.copy[FIRST_WORD] == 0 then thread' == Counting(thread.query, thread.begin, thread.copy)
            else thread' == Claiming(thread.query, thread.begin, thread.copy)
  {
  }

  lemma HeldIsSelected(env: Env, s: State, t: nat)
    requires Inv(env, s) && t < |s.threads| && s.threads[t].Holding? && s.threads[t].begin != 0
    ensures Selected(env, s.core.history, s.threads[t].query, s.threads[t].copy)
    ensures Shaped(s.core) && (s.core.cached != RELOADING ==> Quiet(s.core))
  {
    hide CoreOk, Quiet, Selected;
    assert ThreadOk(env, s.core, s.threads[t]);
  }

  /**
   * While nobody reloads, a call is dropped for its rule's departure exactly when no active rule has
   * the copy's slot and generation; a rule without `@first` then counts its hit at once.
   */
  lemma DepartedRulesDoNotFire(env: Env, run: Run, i: nat)
    requires IsRun(env, run) && i < |run.actions| && run.actions[i].Fire? && run.states[i].core.cached != RELOADING
    requires var t := run.actions[i].t; t < |run.states[i].threads| && run.states[i].threads[t].Holding?
    requires run.states[i].threads[run.actions[i].t].begin != 0
    ensures var t, core := run.actions[i].t, run.states[i].core;
            var thread := run.states[i].threads[t];
            && Shaped(core) && t < |run.states[i + 1].threads| && 1 <= thread.copy[SLOT_WORD] <= POOL_SIZE
            && run.states[i + 1].threads[t] ==
                 if !IsActive(core, TenureOf(thread.copy)) then Idle
                 else if thread.copy[FIRST_WORD] == 0 then Counting(thread.query, thread.begin, thread.copy)
                 else Claiming(thread.query, thread.begin, thread.copy)
  {
    hide Inv, RulesOk, ClaimsOk, ThreadOk, ReaderStep, WriterStep, OwnerStep, Bounded, Selected, Quiet, IsActive;
    At(env, run, i);
    var s, a := run.states[i], run.actions[i];
    PartsOf(env, s);
    HeldIsSelected(env, s, a.t);
    CurrentIsActive(env, s.core, s.threads[a.t].query, s.threads[a.t].copy);
    FireDecides(env, s.core, s.threads[a.t], a, run.states[i + 1].core, run.states[i + 1].threads[a.t]);
  }

  // ---- A failed CAS means that another thread got on -----------------------------------------

  /** From the step after j to step i thread t is about to swing the claim word that step j loaded. */
  ghost predicate LoadedAt(run: Run, j: nat, i: nat, t: nat, s: nat)
    requires |run.states| == |run.actions| + 1 && i < |run.states|
  {
    && j < i && run.actions[j] == LoadClaims(t)
    && (forall m | j <= m <= i :: t < |run.states[m].threads| && s < |run.states[m].core.pool|)
    && (forall m | j < m <= i :: run.states[m].threads[t] == run.states[i].threads[t])
    && run.states[i].threads[t].Trying? && run.states[i].threads[t].copy[SLOT_WORD] == s + 1
    && run.states[i].threads[t].word == run.states[j].core.pool[s].claimed
  }

  lemma OwnStepTries(env: Env, core: Core, thread: Thread, a: Action, core': Core, thread': Thread)
    requires Shaped(core) && thread'.Trying?
    requires ReaderStep(env, core, thread, a, thread') || WriterStep(core, thread, a, core', thread')
             || OwnerStep(env, core, thread, a, core', thread')
    ensures a.LoadClaims? && 1 <= thread'.copy[SLOT_WORD] <= POOL_SIZE
    ensures thread'.word == core.pool[thread'.copy[SLOT_WORD] - 1].claimed
  {
    hide OwnerEnabled, OwnerApply, OwnerPhase;
  }

  lemma TriesOn(env: Env, run: Run, i: nat, t: nat)
    requires IsRun(env, run) && i < |run.actions|
    requires t < |run.states[i + 1].threads| && run.states[i + 1].threads[t].Trying?
    ensures t < |run.states[i].threads| && |run.states[i].core.pool| == |run.states[i + 1].core.pool| == POOL_SIZE
    ensures var thread' := run.states[i + 1].threads[t];
            if run.actions[i].t == t
            then run.actions[i] == LoadClaims(t) && 1 <= thread'.copy[SLOT_WORD] <= POOL_SIZE
                 && thread'.word == run.states[i].core.pool[thread'.copy[SLOT_WORD] - 1].claimed
            else run.states[i].threads[t] == thread'
  {
    hide Inv, ThreadOk, WellFormed, ReaderStep, WriterStep, OwnerStep, Bounded;
    RunKeepsInv(env, run, i + 1);
    PartsOf(env, run.states[i + 1]);
    assert Moves(env, run, i);
    if run.actions[i].t == t {
      OwnStepTries(env, run.states[i].core, run.states[i].threads[t], run.actions[i],
                   run.states[i + 1].core, run.states[i + 1].threads[t]);
    }
  }

  /** Every attempt began with a load of the slot's claim word. */
  lemma {:induction false} AttemptWasLoaded(env: Env, run: Run, i: nat, t: nat) returns (j: nat, s: nat)
    requires IsRun(env, run) && i < |run.states|
    requires t < |run.states[i].threads| && run.states[i].threads[t].Trying?
    ensures LoadedAt(run, j, i, t, s)
  {
    assert i > 0;
    hide Moves, Init;
    TriesOn(env, run, i - 1, t);
    if run.actions[i - 1].t == t {
      j, s := i - 1, run.states[i].threads[t].copy[SLOT_WORD] - 1;
    } else {
      j, s := AttemptWasLoaded(env, run, i - 1, t);
    }
  }

  /** Step i hands slot s to a rule. */
  ghost predicate Hands(run: Run, i: nat, s: nat)
    requires |run.states| == |run.actions| + 1 && i < |run.actions|
  {
    var a, before := run.actions[i], run.states[i];
    a.Hand? && a.t < |before.threads| && Choosing(before.threads[a.t]) && before.threads[a.t].phase.slot == s
  }

  /** Step i is a successful claim on slot s. */
  ghost predicate ClaimsOn(run: Run, i: nat, s: nat)
    requires |run.states| == |run.actions| + 1 && i < |run.actions|
  {
    exists generation :: ClaimSucceeds(run, i, Tenure(s, generation))
  }

  predicate Choosing(thread: Thread) {
    thread.Owner? && thread.phase.Clearing?
  }

  lemma OwnerStepApplies(env: Env, core: Core, thread: Thread, a: Action, core': Core, thread': Thread)
    requires Shaped(core) && OwnerStep(env, core, thread, a, core', thread')
    ensures thread.Owner? && OwnerEnabled(env, core, thread.phase, a) && core' == OwnerApply(env, core, thread, a)
    ensures a.Clear? ==> thread' == thread.(phase := OwnerPhase(core, thread.phase, a))
  {
    hide OwnerEnabled, OwnerApply, OwnerPhase;
  }

  lemma OwnerChangesWord(env: Env, core: Core, thread: Thread, a: Action, core': Core, s: nat)
    requires Shaped(core) && s < |core.pool| == |core'.pool| && core.pool[s].claimed != core'.pool[s].claimed
    requires thread.Owner? && OwnerEnabled(env, core, thread.phase, a) && core' == OwnerApply(env, core, thread, a)
    ensures a.Hand? && Choosing(thread) && thread.phase.slot == s
  {
    OwnersTakeOwnerActions(env, core, thread.phase, a);
  }

  lemma WriterChangesWord(core: Core, thread: Thread, a: Action, core': Core, thread': Thread, s: nat)
    requires Shaped(core) && s < |core.pool| == |core'.pool| && core.pool[s].claimed != core'.pool[s].claimed
    requires WriterStep(core, thread, a, core', thread')
    ensures a.Swing? && thread.Trying? && thread'.Counting? && thread.copy[SLOT_WORD] == s + 1
  {
  }

  lemma WordChanges(env: Env, run: Run, i: nat, s: nat)
    requires IsRun(env, run) && i < |run.actions| && s < |run.states[i].core.pool| == |run.states[i + 1].core.pool|
    requires run.states[i].core.pool[s].claimed != run.states[i + 1].core.pool[s].claimed
    ensures ClaimsOn(run, i, s) || Hands(run, i, s)
  {
    hide Inv, ThreadOk, WellFormed, Bounded, ReaderStep, WriterStep, OwnerStep, OwnerEnabled, OwnerApply, OwnerPhase;
    At(env, run, i);
    var before, a, after := run.states[i], run.actions[i], run.states[i + 1];
    PartsOf(env, before);
    var thread := before.threads[a.t];
    if OwnerStep(env, before.core, thread, a, after.core, after.threads[a.t]) {
      OwnerStepApplies(env, before.core, thread, a, after.core, after.threads[a.t]);
      OwnerChangesWord(env, before.core, thread, a, after.core, s);
    } else {
      WriterChangesWord(before.core, thread, a, after.core, after.threads[a.t], s);
      assert ClaimSucceeds(run, i, Tenure(s, thread.copy[GENERATION_WORD]));
    }
  }

  lemma {:induction false} WordChanged(env: Env, run: Run, j: nat, i: nat, s: nat) returns (m: nat)
    requires IsRun(env, run) && j <= i < |run.states|
    requires forall m | j <= m <= i :: s < |run.states[m].core.pool| == POOL_SIZE
    requires run.states[j].core.pool[s].claimed != run.states[i].core.pool[s].claimed
    ensures j <= m < i && (ClaimsOn(run, m, s) || Hands(run, m, s))
    decreases i
  {
    hide ClaimsOn, Hands, Init, Moves;
    if run.states[i - 1].core.pool[s].claimed != run.states[i].core.pool[s].claimed {
      WordChanges(env, run, i - 1, s);
      m := i - 1;
    } else {
      m := WordChanged(env, run, j, i - 1, s);
    }
  }

  /**
   * The claim loop is lock-free: a CAS that fails means that since the word was loaded another thread
   * claimed on the slot, or the slot was handed to a rule; and the thread then loads the word anew.
   */
  lemma LostClaimMeansProgress(env: Env, run: Run, i: nat) returns (j: nat, s: nat, m: nat)
    requires IsRun(env, run) && i < |run.actions| && run.actions[i].Swing?
    requires run.actions[i].t < |run.states[i + 1].threads| && !run.states[i + 1].threads[run.actions[i].t].Counting?
    ensures run.states[i + 1].threads[run.actions[i].t].Claiming?
    ensures LoadedAt(run, j, i, run.actions[i].t, s) && j < m < i && run.actions[m].t != run.actions[i].t
    ensures ClaimsOn(run, m, s) || Hands(run, m, s)
  {
    hide Inv, ThreadOk, WellFormed, Bounded, LoadedAt, ReaderStep, WriterStep, OwnerStep;
    At(env, run, i);
    var t := run.actions[i].t;
    PartsOf(env, run.states[i]);
    SwingFails(env, run.states[i].core, run.states[i].threads[t], run.actions[i],
               run.states[i + 1].core, run.states[i + 1].threads[t]);
    j, s := AttemptWasLoaded(env, run, i, t);
    m := AnotherChangedIt(env, run, j, i, t, s);
  }

  lemma SwingFails(env: Env, core: Core, thread: Thread, a: Action, core': Core, thread': Thread)
    requires Shaped(core) && a.Swing? && !thread'.Counting?
    requires ReaderStep(env, core, thread, a, thread') || WriterStep(core, thread, a, core', thread')
             || OwnerStep(env, core, thread, a, core', thread')
    ensures thread.Trying? && thread' == Claiming(thread.query, thread.begin, thread.copy)
    ensures 1 <= thread.copy[SLOT_WORD] <= POOL_SIZE && core.pool[thread.copy[SLOT_WORD] - 1].claimed != thread.word
  {
  }

  lemma AnotherChangedIt(env: Env, run: Run, j: nat, i: nat, t: nat, s: nat) returns (m: nat)
    requires IsRun(env, run) && i < |run.states| && LoadedAt(run, j, i, t, s)
    requires t < |run.states[i].threads| && run.states[i].threads[t].Trying?
    requires var thread := run.states[i].threads[t];
             && 1 <= thread.copy[SLOT_WORD] <= |run.states[i].core.pool|
             && run.states[i].core.pool[thread.copy[SLOT_WORD] - 1].claimed != thread.word
    ensures j < m < i && run.actions[m].t != t && (ClaimsOn(run, m, s) || Hands(run, m, s))
  {
    forall m | j <= m <= i ensures |run.states[m].core.pool| == POOL_SIZE {
      PoolSize(env, run, m);
    }
    m := WordChanged(env, run, j, i, s);
  }

  lemma PoolSize(env: Env, run: Run, i: nat)
    requires IsRun(env, run) && i < |run.states|
    ensures |run.states[i].core.pool| == POOL_SIZE
  {
    hide Inv;
    RunKeepsInv(env, run, i);
    PartsOf(env, run.states[i]);
  }

  // ---- Hits --------------------------------------------------------------------------------

  /** Step i counts a hit on slot s. */
  ghost predicate RecordsOn(run: Run, i: nat, s: nat)
    requires |run.states| == |run.actions| + 1 && i < |run.actions|
  {
    var a, before := run.actions[i], run.states[i];
    a.Record? && a.t < |before.threads| && before.threads[a.t].Counting? && before.threads[a.t].copy[SLOT_WORD] == s + 1
  }

  /** Step i chooses slot s for a rule and clears its hits. */
  ghost predicate ClearsSlot(run: Run, i: nat, s: nat)
    requires |run.states| == |run.actions| + 1 && i < |run.actions|
  {
    var a, after := run.actions[i], run.states[i + 1];
    a.Clear? && a.t < |after.threads| && Choosing(after.threads[a.t]) && after.threads[a.t].phase.slot == s
  }

  /** Hits counted on slot s up to step n since it was last chosen. */
  ghost function HitsSinceClear(run: Run, s: nat, n: nat): nat
    requires |run.states| == |run.actions| + 1 && n <= |run.actions| && s < |run.states[0].core.pool|
  {
    if n == 0 then run.states[0].core.pool[s].count
    else if ClearsSlot(run, n - 1, s) then 0
    else HitsSinceClear(run, s, n - 1) + if RecordsOn(run, n - 1, s) then 1 else 0
  }

  lemma OwnerCounts(env: Env, core: Core, thread: Thread, a: Action, core': Core, s: nat)
    requires Shaped(core) && s < POOL_SIZE == |core'.pool|
    requires thread.Owner? && OwnerEnabled(env, core, thread.phase, a) && core' == OwnerApply(env, core, thread, a)
    ensures !a.Record?
    ensures var phase' := OwnerPhase(core, thread.phase, a);
            core'.pool[s].count == if a.Clear? && phase'.Clearing? && phase'.slot == s then 0 else core.pool[s].count
  {
    OwnersTakeOwnerActions(env, core, thread.phase, a);
    if !a.Clear? {
      hide OwnerPhase;
    }
  }

  lemma OthersCount(core: Core, thread: Thread, a: Action, core': Core, thread': Thread, s: nat)
    requires Shaped(core) && s < POOL_SIZE == |core'.pool| && WriterStep(core, thread, a, core', thread')
    ensures core'.pool[s].count ==
            core.pool[s].count + if a.Record? && thread.Counting? && thread.copy[SLOT_WORD] == s + 1 then 1 else 0
    ensures !a.Clear?
  {
  }

  lemma ReadersDoNotCount(env: Env, core: Core, thread: Thread, a: Action, thread': Thread)
    requires Shaped(core) && ReaderStep(env, core, thread, a, thread')
    ensures !a.Record? && !a.Clear?
  {
  }

  lemma StepCounts(env: Env, run: Run, s: nat, i: nat)
    requires IsRun(env, run) && i < |run.actions| && s < |run.states[i].core.pool| == |run.states[i + 1].core.pool|
    ensures run.states[i + 1].core.pool[s].count ==
            if ClearsSlot(run, i, s) then 0 else run.states[i].core.pool[s].count + if RecordsOn(run, i, s) then 1 else 0
  {
    hide Inv, ThreadOk, WellFormed, Bounded, ReaderStep, WriterStep, OwnerStep, OwnerEnabled, OwnerApply, OwnerPhase;
    At(env, run, i);
    var before, a, after := run.states[i], run.actions[i], run.states[i + 1];
    PartsOf(env, before);
    if OwnerStep(env, before.core, before.threads[a.t], a, after.core, after.threads[a.t]) {
      OwnerStepApplies(env, before.core, before.threads[a.t], a, after.core, after.threads[a.t]);
      OwnerCounts(env, before.core, before.threads[a.t], a, after.core, s);
    } else if WriterStep(before.core, before.threads[a.t], a, after.core, after.threads[a.t]) {
      OthersCount(before.core, before.threads[a.t], a, after.core, after.threads[a.t], s);
    } else {
      ReadersDoNotCount(env, before.core, before.threads[a.t], a, after.threads[a.t]);
    }
  }

  /** What a slot shows is the number of hits counted on it since it was last chosen, no more and no less. */
  lemma {:induction false} SlotsShowTheirHits(env: Env, run: Run, s: nat, n: nat)
    requires IsRun(env, run) && n <= |run.actions| && s < POOL_SIZE
    ensures |run.states[0].core.pool| == |run.states[n].core.pool| == POOL_SIZE
    ensures run.states[n].core.pool[s].count == HitsSinceClear(run, s, n)
  {
    hide Init, Moves, ClearsSlot, RecordsOn;
    PoolSize(env, run, 0);
    PoolSize(env, run, n);
    if n > 0 {
      PoolSize(env, run, n - 1);
      SlotsShowTheirHits(env, run, s, n - 1);
      StepCounts(env, run, s, n - 1);
    }
  }

  /** From the step after j to step i thread t has chosen slot s, which step j cleared. */
  ghost predicate ClearedAt(run: Run, j: nat, i: nat, t: nat, s: nat)
    requires |run.states| == |run.actions| + 1 && i < |run.states|
  {
    && j < i && run.actions[j].t == t && ClearsSlot(run, j, s)
    && t < |run.states[i].threads|
    && (forall m | j < m <= i :: t < |run.states[m].threads| && run.states[m].threads[t] == run.states[i].threads[t])
  }

  lemma OwnerChooses(env: Env, core: Core, phase: Phase, a: Action)
    requires Shaped(core) && OwnerEnabled(env, core, phase, a)
    ensures OwnerPhase(core, phase, a).Clearing? ==> a.Clear?
  {
  }

  lemma OwnStepChooses(env: Env, core: Core, thread: Thread, a: Action, core': Core, thread': Thread)
    requires Shaped(core) && Choosing(thread')
    requires ReaderStep(env, core, thread, a, thread') || WriterStep(core, thread, a, core', thread')
             || OwnerStep(env, core, thread, a, core', thread')
    ensures a.Clear?
  {
    hide OwnerEnabled, OwnerApply, OwnerPhase;
    if thread.Owner? && OwnerEnabled(env, core, thread.phase, a) {
      OwnerChooses(env, core, thread.phase, a);
    }
  }

  lemma ChoosesOn(env: Env, run: Run, i: nat, t: nat)
    requires IsRun(env, run) && i < |run.actions|
    requires t < |run.states[i + 1].threads| && Choosing(run.states[i + 1].threads[t])
    ensures t < |run.states[i].threads|
    ensures if run.actions[i].t == t then ClearsSlot(run, i, run.states[i + 1].threads[t].phase.slot)
            else run.states[i].threads[t] == run.states[i + 1].threads[t]
  {
    hide ReaderStep, WriterStep, OwnerStep, Bounded;
    assert Moves(env, run, i);
    if run.actions[i].t == t {
      OwnStepChooses(env, run.states[i].core, run.states[i].threads[t], run.actions[i],
                     run.states[i + 1].core, run.states[i + 1].threads[t]);
    }
  }

  /** A slot is handed to a rule only by the owner that chose and cleared it. */
  lemma {:induction false} ChosenWasCleared(env: Env, run: Run, i: nat, t: nat) returns (j: nat)
    requires IsRun(env, run) && i < |run.states|
    requires t < |run.states[i].threads| && Choosing(run.states[i].threads[t])
    ensures ClearedAt(run, j, i, t, run.states[i].threads[t].phase.slot)
  {
    assert i > 0;
    hide Moves, Init, ClearsSlot;
    ChoosesOn(env, run, i - 1, t);
    if run.actions[i - 1].t == t {
      j := i - 1;
    } else {
      j := ChosenWasCleared(env, run, i - 1, t);
    }
  }

  lemma HandDecides(env: Env, core: Core, thread: Thread, a: Action, core': Core, thread': Thread)
    requires Shaped(core) && a.Hand? && WellFormed(thread)
    requires ReaderStep(env, core, thread, a, thread') || WriterStep(core, thread, a, core', thread')
             || OwnerStep(env, core, thread, a, core', thread')
    ensures Choosing(thread) && |core'.pool| == POOL_SIZE
    ensures thread.phase.slot < POOL_SIZE && |thread.phase.next| < |thread.phase.texts|
    ensures var (s, text) := (thread.phase.slot, thread.phase.texts[|thread.phase.next|]);
            && core'.pool[s].used && core'.pool[s].state == 0 && core'.pool[s].generation == core.pool[s].generation
            && Claims(core'.pool[s].claimed) == 0 && Tag(core'.pool[s].claimed) == core.pool[s].generation % TWO32
            && Tenure(s, core.pool[s].generation) in core'.tenants
            && core'.tenants[Tenure(s, core.pool[s].generation)] == text
            && forall v | 0 <= v < POOL_SIZE && v != s :: core'.pool[v] == core.pool[v]
  {
    FreshClaimWord(core.pool[thread.phase.slot].generation, 0);
  }

  lemma HandsUnheld(env: Env, core: Core, thread: Thread)
    requires Shaped(core) && ClaimsOk(env, core) && WellFormed(thread) && ThreadOk(env, core, thread) && Choosing(thread)
    ensures Tenure(thread.phase.slot, core.pool[thread.phase.slot].generation) !in core.tenants
  {
    hide WinsOk, AssigningOk;
    assert SlotClaimsOk(core, thread.phase.slot);
  }

  /**
   * How a rule comes by its slot: the slot is in use from then on with no state and no claims, under a
   * tenure that was nobody's and that nobody has claimed or fired under; and the hits it shows are those
   * counted since the same owner cleared it.
   */
  lemma NewTenureStartsOver(env: Env, run: Run, i: nat) returns (j: nat, s: nat)
    requires IsRun(env, run) && i < |run.actions| && run.actions[i].Hand?
    ensures |run.states[i].core.pool| == |run.states[i + 1].core.pool| == POOL_SIZE && s < POOL_SIZE
    ensures Hands(run, i, s) && ClearedAt(run, j, i, run.actions[i].t, s)
    ensures var before, slot := run.states[i].core, run.states[i + 1].core.pool[s];
            var tenure := Tenure(s, slot.generation);
            && slot.used && slot.state == 0 && slot.generation == before.pool[s].generation
            && Claims(slot.claimed) == 0 && Tag(slot.claimed) == slot.generation
            && tenure !in before.tenants && tenure in run.states[i + 1].core.tenants
            && ClaimsMade(run, tenure, i) == 0 && Times(run, Fired, tenure, false, i) == 0
    ensures forall v | 0 <= v < POOL_SIZE && v != s :: run.states[i + 1].core.pool[v] == run.states[i].core.pool[v]
  {
    hide Inv, ClaimsOk, ThreadOk, WellFormed, ReaderStep, WriterStep, OwnerStep;
    hide ClearedAt, ClaimsMade, Times, TornClaimSucceeds;
    At(env, run, i);
    var before, a, after := run.states[i], run.actions[i], run.states[i + 1];
    PartsOf(env, before);
    var thread := before.threads[a.t];
    HandDecides(env, before.core, thread, a, after.core, after.threads[a.t]);
    s := thread.phase.slot;
    HandsUnheld(env, before.core, thread);
    j := ChosenWasCleared(env, run, i, a.t);
    var tenure := Tenure(s, before.core.pool[s].generation);
    FirstIsNeverOverdrawn(env, run, tenure, i);
    FiresWithinLimit(env, run, tenure, i);
  }
}
