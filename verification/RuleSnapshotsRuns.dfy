/**
 * Runs of the rule-snapshot protocol: any list of rules can be published from any quiet state, and
 * two runs in which copies accepted during clears break `@first`.
 */
module RuleSnapshotsRuns {
  import opened Options
  import opened HitPool
  import opened RuleSnapshots
  import opened RuleSnapshotsSafety
  import opened RuleSnapshotsTheorems
  import Selection

  // ---- Reaching states ---------------------------------------------------------------------

  ghost predicate Ends(run: Run, s: State) {
    |run.states| > 0 && run.states[|run.states| - 1] == s
  }

  /** A run ends in the state, which lies within the bound on generations. */
  ghost predicate Reachable(env: Env, s: State) {
    Bounded(s.core) && exists run :: IsRun(env, run) && Ends(run, s)
  }

  lemma ReachableInv(env: Env, s: State)
    requires Reachable(env, s)
    ensures Inv(env, s) && Shaped(s.core)
  {
    hide Inv, IsRun, Bounded;
    var run :| IsRun(env, run) && Ends(run, s);
    RunKeepsInv(env, run, |run.states| - 1) by {
      RunLength(env, run);
    }
    ShapedIn(env, s);
  }

  lemma RunLength(env: Env, run: Run)
    requires IsRun(env, run)
    ensures |run.states| == |run.actions| + 1
  {
  }

  lemma RunGrows(env: Env, run: Run, a: Action, s': State)
    requires IsRun(env, run) && var s := run.states[|run.actions|]; Shaped(s.core) && Bounded(s.core) && Step(env, s, a, s')
    ensures IsRun(env, Run(run.states + [s'], run.actions + [a]))
  {
    hide Step, Shaped, Bounded, Init;
    var longer := Run(run.states + [s'], run.actions + [a]);
    forall i | 0 <= i < |longer.actions| ensures Moves(env, longer, i) {
      assert i < |run.actions| ==> Moves(env, run, i);
    }
  }

  lemma StepReaches(env: Env, s: State, a: Action, s': State)
    requires Reachable(env, s) && Shaped(s.core) && Step(env, s, a, s') && Bounded(s'.core)
    ensures Reachable(env, s')
  {
    hide Step, Shaped, Bounded, IsRun;
    var run :| IsRun(env, run) && Ends(run, s);
    RunLength(env, run);
    RunGrows(env, run, a, s');
    assert Ends(Run(run.states + [s'], run.actions + [a]), s');
  }

  function WithThread(s: State, t: nat, thread: Thread): State
    requires t < |s.threads|
  {
    s.(threads := s.threads[t := thread])
  }

  /** A read step of thread t. */
  lemma ReadReaches(env: Env, s: State, a: Action, thread': Thread) returns (s': State)
    requires Reachable(env, s) && Shaped(s.core) && a.t < |s.threads|
    requires ReaderStep(env, s.core, s.threads[a.t], a, thread')
    ensures s' == WithThread(s, a.t, thread') && Reachable(env, s')
  {
    hide ReaderStep, Shaped, Bounded;
    s' := WithThread(s, a.t, thread');
    assert Step(env, s, a, s');
    StepReaches(env, s, a, s');
  }

  /** A step of thread 0, the owner, that does not end the reload. */
  lemma OwnerReaches(env: Env, s: State, a: Action) returns (s': State)
    requires Reachable(env, s) && Shaped(s.core) && a.t == 0 < |s.threads| && s.threads[0].Owner?
    requires OwnerEnabled(env, s.core, s.threads[0].phase, a) && !a.Publish? && !a.Restore?
    requires Bounded(OwnerApply(env, s.core, s.threads[0], a))
    ensures s' == WithThread(s, 0, s.threads[0].(phase := OwnerPhase(s.core, s.threads[0].phase, a)))
                    .(core := OwnerApply(env, s.core, s.threads[0], a))
    ensures Reachable(env, s') && Shaped(s'.core)
  {
    hide OwnerEnabled, OwnerApply, OwnerPhase, Bounded;
    s' := WithThread(s, 0, s.threads[0].(phase := OwnerPhase(s.core, s.threads[0].phase, a)))
            .(core := OwnerApply(env, s.core, s.threads[0], a));
    assert OwnerStep(env, s.core, s.threads[0], a, s'.core, s'.threads[0]);
    hide OwnerStep, Shaped;
    assert Step(env, s, a, s');
    StepReaches(env, s, a, s');
    ReachableInv(env, s');
  }

  // ---- Writing a snapshot ------------------------------------------------------------------

  ghost function Cells(s: State): seq<Words>
    requires Shaped(s.core)
  {
    s.core.snapshots[Next(s.core)].cells
  }

  ghost function WithCells(s: State, cells: seq<Words>): State
    requires Shaped(s.core)
  {
    s.(core := WithNext(s.core, s.core.snapshots[Next(s.core)].(cells := cells)))
  }

  /** Thread 0 owns a reload, in a reachable state. */
  ghost predicate Owns(env: Env, s: State) {
    Reachable(env, s) && Bounded(s.core) && Shaped(s.core) && |s.threads| > 0 && s.threads[0].Owner?
  }

  lemma WriteReaches(env: Env, s: State, cell: nat, word: nat, value: nat) returns (s': State)
    requires Owns(env, s) && Writable(s.threads[0].phase, cell, word, value)
    ensures cell < |Cells(s)| && word < RULE_WORDS
    ensures s' == WithCells(s, Cells(s)[cell := Cells(s)[cell][word := value]]) && Owns(env, s')
  {
    hide Reachable, Writable;
    WritesInside(s, cell, word, value);
    s' := OwnerReaches(env, s, WriteWord(0, cell, word, value));
    assert s'.threads == s.threads;
  }

  lemma WritesInside(s: State, cell: nat, word: nat, value: nat)
    requires Shaped(s.core) && |s.threads| > 0 && s.threads[0].Owner? && Writable(s.threads[0].phase, cell, word, value)
    ensures |Cells(s)| == MAX_RULES && cell < MAX_RULES && word < RULE_WORDS
  {
  }

  lemma CellsPlaced(s: State, cells: seq<Words>, again: seq<Words>)
    requires Shaped(s.core) && |cells| == MAX_RULES
    ensures WithCells(s, Cells(s)) == s
    ensures Shaped(WithCells(s, cells).core) && Cells(WithCells(s, cells)) == cells
    ensures WithCells(WithCells(s, cells), again) == WithCells(s, again)
  {
    var k, snapshots := Next(s.core), s.core.snapshots;
    assert snapshots[k := snapshots[k]] == snapshots;
    var first, second := snapshots[k].(cells := cells), snapshots[k].(cells := again);
    assert snapshots[k := first][k := second] == snapshots[k := second];
  }

  /** Writes one rule structure, word by word. */
  lemma {:induction false} FillCell(env: Env, s: State, cell: nat, goal: Words, from: nat) returns (s': State)
    requires Owns(env, s) && cell < |Cells(s)| && from <= RULE_WORDS && Cells(s)[cell][..from] == goal[..from]
    requires forall w | from <= w < RULE_WORDS :: Writable(s.threads[0].phase, cell, w, goal[w]) || Cells(s)[cell][w] == goal[w]
    ensures s' == WithCells(s, Cells(s)[cell := goal]) && Owns(env, s')
    decreases RULE_WORDS - from
  {
    hide Reachable, Writable;
    var end := Cells(s)[cell := goal];
    if from == RULE_WORDS {
      assert Cells(s)[cell] == Cells(s)[cell][..from] == goal[..from] == goal;
      assert end == Cells(s);
      CellsPlaced(s, end, end);
      s' := s;
    } else if Cells(s)[cell][from] == goal[from] {
      s' := FillCell(env, s, cell, goal, from + 1);
    } else {
      var t := WriteReaches(env, s, cell, from, goal[from]);
      var written := Cells(s)[cell := Cells(s)[cell][from := goal[from]]];
      CellsPlaced(s, written, end);
      assert written[cell := goal] == end;
      s' := FillCell(env, t, cell, goal, from + 1);
    }
  }

  /** Writes all rule structures. */
  lemma {:induction false} Fill(env: Env, s: State, goal: seq<Words>, from: nat) returns (s': State)
    requires Owns(env, s) && |goal| == |Cells(s)| && from <= |goal| && Cells(s)[..from] == goal[..from]
    requires forall i, w | from <= i < |goal| && 0 <= w < RULE_WORDS ::
               Writable(s.threads[0].phase, i, w, goal[i][w]) || Cells(s)[i][w] == goal[i][w]
    ensures s' == WithCells(s, goal) && Owns(env, s')
    decreases |goal| - from
  {
    hide Reachable, Writable;
    if from == |goal| {
      assert Cells(s) == goal;
      CellsPlaced(s, goal, goal);
      s' := s;
    } else {
      var t := FillCell(env, s, from, goal[from], 0);
      CellsPlaced(s, Cells(s)[from := goal[from]], goal);
      s' := Fill(env, t, goal, from + 1);
    }
  }

  // ---- A reload ----------------------------------------------------------------------------

  /** The state one owner step later. */
  ghost function OwnerNext(env: Env, s: State, a: Action): State
    requires Shaped(s.core) && |s.threads| > 0 && s.threads[0].Owner?
    requires OwnerEnabled(env, s.core, s.threads[0].phase, a)
  {
    WithThread(s, 0, s.threads[0].(phase := OwnerPhase(s.core, s.threads[0].phase, a)))
      .(core := OwnerApply(env, s.core, s.threads[0], a))
  }

  /** An owner step that leaves the pool as it is. */
  lemma QuietOwnerStep(env: Env, s: State, a: Action) returns (s': State)
    requires Owns(env, s) && a.t == 0 && OwnerEnabled(env, s.core, s.threads[0].phase, a) && !a.Publish? && !a.Restore?
    requires OwnerApply(env, s.core, s.threads[0], a).pool == s.core.pool
    ensures s' == OwnerNext(env, s, a) && Owns(env, s')
  {
    hide OwnerEnabled, OwnerApply, OwnerPhase, Shaped, Reachable;
    s' := OwnerReaches(env, s, a);
  }

  /** The inactive snapshot during a clear, before any other word is written. */
  ghost function Wiped(core: Core): Core
    requires Shaped(core)
  {
    var next := core.snapshots[Next(core)];
    WithNext(core, next.(sequence := Odd(next.sequence), cleared := true)).(cached := RELOADING)
  }

  /** Thread 0 may begin a reload. */
  ghost predicate Calm(env: Env, s: State) {
    Reachable(env, s) && Shaped(s.core) && Bounded(s.core) && |s.threads| > 0 && s.threads[0].Idle? && s.core.cached != RELOADING
  }

  lemma Loads(env: Env, s: State, stamp: Stamp) returns (s': State)
    requires Calm(env, s) && Observable(stamp)
    ensures s' == WithThread(s, 0, Loaded(stamp, s.core.cached)) && Reachable(env, s')
  {
    hide Reachable, Observable;
    var observed := ReadReaches(env, s, Observe(0, stamp), Observed(stamp));
    s' := ReadReaches(env, observed, Load(0), Loaded(stamp, s.core.cached));
    assert s'.threads == s.threads[0 := Loaded(stamp, s.core.cached)];
  }

  lemma Elects(env: Env, s: State, stamp: Stamp) returns (s': State)
    requires Reachable(env, s) && Shaped(s.core) && Bounded(s.core) && |s.threads| > 0
    requires s.threads[0] == Loaded(stamp, s.core.cached) && s.core.cached != RELOADING
    ensures s' == WithThread(s, 0, Owner(stamp, s.core.cached, Claimed)).(core := s.core.(cached := RELOADING)) && Owns(env, s')
  {
    hide Reachable;
    s' := WithThread(s, 0, Owner(stamp, s.core.cached, Claimed)).(core := s.core.(cached := RELOADING));
    assert WriterStep(s.core, s.threads[0], Claim(0), s'.core, s'.threads[0]);
    hide WriterStep, Shaped;
    assert Step(env, s, Claim(0), s');
    StepReaches(env, s, Claim(0), s');
    ReachableInv(env, s');
  }

  /** Thread 0 observes a stamp, wins the CAS, and starts to clear the inactive snapshot. */
  lemma StartReload(env: Env, s: State, stamp: Stamp) returns (s': State)
    requires Calm(env, s) && Observable(stamp)
    ensures s' == WithThread(s, 0, Owner(stamp, s.core.cached, Wiping)).(core := Wiped(s.core)) && Owns(env, s')
  {
    hide Reachable, Observable;
    var loaded := Loads(env, s, stamp);
    var claimed := Elects(env, loaded, stamp);
    ReachableInv(env, s);
    var begun := QuietOwnerStep(env, claimed, WriteBegin(0));
    s' := QuietOwnerStep(env, begun, WipeSequence(0));
    var k, next := Next(s.core), s.core.snapshots[Next(s.core)];
    assert s'.core.snapshots == s.core.snapshots[k := next.(sequence := Odd(next.sequence), cleared := true)];
    assert s'.threads == s.threads[0 := Owner(stamp, s.core.cached, Wiping)];
  }

  function ParsedCell(env: Env, texts: seq<string>, i: nat): Words {
    if i < |texts| then env.parse(texts[i])[SLOT_WORD := 0] else Zero()
  }

  /** The inactive snapshot after a parse: the words of the texts, without slots. */
  function ParsedCells(env: Env, texts: seq<string>): (cells: seq<Words>)
    ensures |cells| == MAX_RULES && forall i | 0 <= i < MAX_RULES :: cells[i] == ParsedCell(env, texts, i)
  {
    seq(MAX_RULES, i requires 0 <= i < MAX_RULES => ParsedCell(env, texts, i))
  }

  ghost function WithSnapshot(s: State, cleared: bool, count: nat, cells: seq<Words>): State
    requires Shaped(s.core)
  {
    s.(core := WithNext(s.core, s.core.snapshots[Next(s.core)].(cleared := cleared, count := count, cells := cells)))
  }

  lemma SnapshotPlaced(s: State, cleared: bool, count: nat, cells: seq<Words>, cleared': bool, count': nat, cells': seq<Words>)
    requires Shaped(s.core) && |cells| == MAX_RULES && count <= MAX_RULES
    ensures Shaped(WithSnapshot(s, cleared, count, cells).core)
    ensures WithSnapshot(WithSnapshot(s, cleared, count, cells), cleared', count', cells') == WithSnapshot(s, cleared', count', cells')
  {
    var k, snapshots := Next(s.core), s.core.snapshots;
    var first := snapshots[k].(cleared := cleared, count := count, cells := cells);
    var second := snapshots[k].(cleared := cleared', count := count', cells := cells');
    assert snapshots[k := first][k := second] == snapshots[k := second];
  }

  ghost function Inactive(s: State): Snapshot
    requires Shaped(s.core)
  {
    s.core.snapshots[Next(s.core)]
  }

  lemma CountReaches(env: Env, s: State, value: nat) returns (s': State)
    requires Owns(env, s) && OwnerEnabled(env, s.core, s.threads[0].phase, WriteCount(0, value))
    ensures s' == WithSnapshot(s, Inactive(s).cleared, value, Cells(s)) && Owns(env, s')
  {
    hide Reachable;
    s' := QuietOwnerStep(env, s, WriteCount(0, value));
    assert s'.threads == s.threads;
  }

  lemma RestoreReaches(env: Env, s: State) returns (s': State)
    requires Owns(env, s) && s.threads[0].phase.Wiping? && Inactive(s).cleared && Inactive(s).count == 0 && Cells(s) == NoRules()
    ensures s' == WithThread(WithSnapshot(s, false, 0, NoRules()), 0, s.threads[0].(phase := Writing)) && Owns(env, s')
  {
    hide Reachable;
    s' := QuietOwnerStep(env, s, RestoreSequence(0));
  }

  lemma ParsedReaches(env: Env, s: State, texts: seq<string>) returns (s': State)
    requires Owns(env, s) && s.threads[0].phase.Writing? && |texts| <= MAX_RULES && Inactive(s).count == |texts|
    ensures s' == WithThread(s, 0, s.threads[0].(phase := Assigning(texts, [], 0))) && Owns(env, s')
  {
    hide Reachable;
    s' := QuietOwnerStep(env, s, Parsed(0, texts));
  }

  /** The clear runs to its end, and the sequence is put back. */
  lemma FinishClear(env: Env, s: State) returns (s': State)
    requires Owns(env, s) && s.threads[0].phase.Wiping? && Inactive(s).cleared
    ensures s' == WithThread(WithSnapshot(s, false, 0, NoRules()), 0, s.threads[0].(phase := Writing)) && Owns(env, s')
  {
    hide Reachable, Bounded;
    var zeroed := Fill(env, s, NoRules(), 0);
    assert zeroed == WithSnapshot(s, true, Inactive(s).count, NoRules());
    SnapshotPlaced(s, true, Inactive(s).count, NoRules(), true, 0, NoRules());
    var counted := CountReaches(env, zeroed, 0);
    SnapshotPlaced(s, true, 0, NoRules(), false, 0, NoRules());
    s' := RestoreReaches(env, counted);
  }

  lemma ParsedWritable(env: Env, texts: seq<string>)
    ensures forall i, w | 0 <= i < MAX_RULES && 0 <= w < RULE_WORDS :: Writable(Writing, i, w, ParsedCells(env, texts)[i][w])
  {
  }

  /** Any list of texts within the limit may be parsed. */
  lemma Parses(env: Env, s: State, texts: seq<string>) returns (s': State)
    requires Owns(env, s) && s.threads[0].phase.Writing? && |texts| <= MAX_RULES && !Inactive(s).cleared
    ensures s' == WithThread(WithSnapshot(s, false, |texts|, ParsedCells(env, texts)), 0, s.threads[0].(phase := Assigning(texts, [], 0)))
    ensures Owns(env, s')
  {
    hide Reachable, Bounded, ParsedCells;
    var goal := ParsedCells(env, texts);
    ParsedWritable(env, texts);
    var written := Fill(env, s, goal, 0);
    assert written == WithSnapshot(s, false, Inactive(s).count, goal);
    SnapshotPlaced(s, false, Inactive(s).count, goal, false, |texts|, goal);
    var counted := CountReaches(env, written, |texts|);
    s' := ParsedReaches(env, counted, texts);
  }

  /** All but the pool, the tenants and their record is as it was, and no generation moved. */
  ghost predicate SlotsAside(core: Core, core': Core) {
    && core' == core.(pool := core'.pool, tenants := core'.tenants)
    && |core'.pool| == |core.pool|
    && forall i | 0 <= i < |core.pool| :: core'.pool[i].generation == core.pool[i].generation
  }

  lemma SameGenerationsBounded(core: Core, core': Core)
    requires Bounded(core) && SlotsAside(core, core')
    ensures Bounded(core')
  {
  }

  /** An owner step on slots alone. */
  lemma SlotStep(env: Env, s: State, a: Action) returns (s': State)
    requires Owns(env, s) && a.t == 0 && OwnerEnabled(env, s.core, s.threads[0].phase, a) && (a.Keep? || a.Clear? || a.Hand?)
    ensures s' == OwnerNext(env, s, a) && Owns(env, s') && SlotsAside(s.core, s'.core)
  {
    hide Reachable, OwnerPhase;
    SameGenerationsBounded(s.core, OwnerApply(env, s.core, s.threads[0], a));
    hide OwnerEnabled, OwnerApply;
    s' := OwnerReaches(env, s, a);
  }

  ghost predicate Assigns(s: State, texts: seq<string>) {
    && |s.threads| > 0 && s.threads[0].Owner? && s.threads[0].phase.Assigning? && s.threads[0].phase.texts == texts
  }

  /** What the invariant says of an owner that assigns. */
  lemma AssigningIn(env: Env, s: State)
    requires Owns(env, s) && s.threads[0].phase.Assigning?
    ensures var phase := s.threads[0].phase;
            && |phase.next| <= |phase.texts| && phase.cursor <= POOL_SIZE
            && (|phase.next| < |phase.texts| ==> NextFree(s.core.pool, phase.cursor) < POOL_SIZE)
  {
    hide Reachable, RulesOk, ClaimsOk, HistoryOk, WordsOk, ReaderOk;
    ReachableInv(env, s);
    assert ThreadOk(env, s.core, s.threads[0]);
    var phase := s.threads[0].phase;
    if |phase.next| < |phase.texts| {
      NeverOutOfSlots(s.core, phase.texts, phase.next, phase.cursor);
    }
  }

  /** The thread of the owner, at another phase. */
  function AtPhase(s: State, phase: Phase): seq<Thread>
    requires |s.threads| > 0 && s.threads[0].Owner?
  {
    s.threads[0 := s.threads[0].(phase := phase)]
  }

  lemma KeepsSlot(env: Env, s: State) returns (s': State, slot: Option<nat>)
    requires Owns(env, s) && OwnerEnabled(env, s.core, s.threads[0].phase, Keep(0))
    ensures var phase := s.threads[0].phase; s'.threads == AtPhase(s, Assigning(phase.texts, phase.next + [slot], phase.cursor))
    ensures Owns(env, s') && SlotsAside(s.core, s'.core)
  {
    hide Reachable, Bounded, SlotsAside;
    slot := FindActive(s.core.lists[s.core.active], s.threads[0].phase.texts[|s.threads[0].phase.next|]);
    s' := SlotStep(env, s, Keep(0));
  }

  lemma ClearsSlot(env: Env, s: State) returns (s': State, slot: nat)
    requires Owns(env, s) && OwnerEnabled(env, s.core, s.threads[0].phase, Clear(0))
    ensures var phase := s.threads[0].phase; s'.threads == AtPhase(s, Clearing(phase.texts, phase.next, slot)) && slot < POOL_SIZE
    ensures Owns(env, s') && SlotsAside(s.core, s'.core)
  {
    hide Reachable, Bounded, SlotsAside;
    slot := NextFree(s.core.pool, s.threads[0].phase.cursor);
    s' := SlotStep(env, s, Clear(0));
  }

  lemma HandsSlot(env: Env, s: State) returns (s': State)
    requires Owns(env, s) && OwnerEnabled(env, s.core, s.threads[0].phase, Hand(0))
    ensures var phase := s.threads[0].phase; s'.threads == AtPhase(s, Assigning(phase.texts, phase.next + [Some(phase.slot)], phase.slot))
    ensures Owns(env, s') && SlotsAside(s.core, s'.core)
  {
    hide Reachable, Bounded, SlotsAside;
    s' := SlotStep(env, s, Hand(0));
  }

  /** One more text gets its slot. */
  lemma AssignsOne(env: Env, s: State, texts: seq<string>) returns (s': State)
    requires Owns(env, s) && Assigns(s, texts) && |s.threads[0].phase.next| < |texts|
    ensures Owns(env, s') && Assigns(s', texts) && |s'.threads[0].phase.next| == |s.threads[0].phase.next| + 1
    ensures s'.threads == AtPhase(s, s'.threads[0].phase) && SlotsAside(s.core, s'.core)
  {
    AssigningIn(env, s);
    hide Reachable, Bounded, SlotsAside, FindActive, NextFree;
    var phase := s.threads[0].phase;
    if FindActive(s.core.lists[s.core.active], texts[|phase.next|]).Some? {
      var slot;
      s', slot := KeepsSlot(env, s);
    } else {
      var cleared, slot := ClearsSlot(env, s);
      s' := HandsSlot(env, cleared);
      AsideTwice(s.core, cleared.core, s'.core);
    }
  }

  lemma AsideTwice(a: Core, b: Core, c: Core)
    requires SlotsAside(a, b) && SlotsAside(b, c)
    ensures SlotsAside(a, c)
  {
  }

  /** All texts get their slots. */
  lemma {:induction false} AssignsAll(env: Env, s: State, texts: seq<string>) returns (s': State)
    requires Owns(env, s) && Assigns(s, texts)
    ensures Owns(env, s') && Assigns(s', texts) && |s'.threads[0].phase.next| == |texts|
    ensures s'.threads == AtPhase(s, s'.threads[0].phase) && SlotsAside(s.core, s'.core)
    decreases |texts| - |s.threads[0].phase.next|
  {
    hide Reachable, Shaped, Bounded;
    AssigningIn(env, s);
    if |s.threads[0].phase.next| == |texts| {
      s' := s;
    } else {
      var t := AssignsOne(env, s, texts);
      AssigningIn(env, t);
      s' := AssignsAll(env, t, texts);
      AsideTwice(s.core, t.core, s'.core);
    }
  }

  /** The rules attached have the texts assigned, and slots. */
  lemma AttachingIn(env: Env, s: State)
    requires Owns(env, s) && s.threads[0].phase.Attaching?
    ensures var rules := s.threads[0].phase.rules; |rules| <= MAX_RULES && InPool(rules, POOL_SIZE)
  {
    hide Reachable, RulesOk, ClaimsOk, HistoryOk, WordsOk, ReaderOk;
    ReachableInv(env, s);
    assert ThreadOk(env, s.core, s.threads[0]);
  }

  function AttachedCell(env: Env, rules: seq<Rule>, cells: seq<Words>, i: nat): Words
    requires i < |cells|
  {
    if i < |rules| then Image(env, rules[i]) else cells[i]
  }

  /** The rules' slots and generations are written, and their snapshot is complete. */
  lemma Attaches(env: Env, s: State, texts: seq<string>) returns (s': State, rules: seq<Rule>)
    requires Owns(env, s) && Assigns(s, texts) && |s.threads[0].phase.next| == |texts|
    requires Inactive(s).count == |texts| && Cells(s) == ParsedCells(env, texts)
    ensures Texts(rules) == texts && |rules| <= MAX_RULES && InPool(rules, POOL_SIZE)
    ensures s'.threads == s.threads[0 := s.threads[0].(phase := Releasing(rules, 0))] && Owns(env, s')
    ensures exists cells :: s'.core == WithCells(s, cells).core.(lists := s.core.lists[Next(s.core) := rules])
  {
    hide Reachable, Bounded;
    var attaching := QuietOwnerStep(env, s, AllAssigned(0));
    rules := attaching.threads[0].phase.rules;
    AttachingIn(env, attaching);
    assert Texts(rules) == texts;
    var goal: seq<Words> := seq(MAX_RULES, i requires 0 <= i < MAX_RULES => AttachedCell(env, rules, Cells(s), i));
    AttachWritable(env, texts, rules, goal);
    var written := Fill(env, attaching, goal, 0);
    assert goal[..|rules|] == Images(env, rules);
    s' := AttachedReaches(env, written);
    assert s'.core == WithCells(s, goal).core.(lists := s.core.lists[Next(s.core) := rules]);
  }

  lemma AttachedReaches(env: Env, s: State) returns (s': State)
    requires Owns(env, s) && s.threads[0].phase.Attaching?
    requires var rules := s.threads[0].phase.rules;
             && |rules| <= MAX_RULES && InPool(rules, POOL_SIZE)
             && Inactive(s).count == |rules| && Cells(s)[..|rules|] == Images(env, rules)
    ensures var rules := s.threads[0].phase.rules;
            s' == WithThread(s, 0, s.threads[0].(phase := Releasing(rules, 0))).(core := s.core.(lists := s.core.lists[Next(s.core) := rules]))
    ensures Owns(env, s')
  {
    hide Reachable;
    s' := QuietOwnerStep(env, s, Attached(0));
  }

  /** Of a parsed rule only the slot and the generation are still to be written. */
  lemma AttachWritable(env: Env, texts: seq<string>, rules: seq<Rule>, goal: seq<Words>)
    requires Texts(rules) == texts && |texts| <= MAX_RULES && |goal| == MAX_RULES
    requires forall i | 0 <= i < MAX_RULES :: goal[i] == AttachedCell(env, rules, ParsedCells(env, texts), i)
    ensures forall i, w | 0 <= i < MAX_RULES && 0 <= w < RULE_WORDS ::
              Writable(Attaching(rules), i, w, goal[i][w]) || ParsedCells(env, texts)[i][w] == goal[i][w]
  {
    forall i, w | 0 <= i < MAX_RULES && 0 <= w < RULE_WORDS
      ensures Writable(Attaching(rules), i, w, goal[i][w]) || ParsedCells(env, texts)[i][w] == goal[i][w]
    {
      if i < |rules| {
        assert rules[i].text == Texts(rules)[i] == texts[i];
      }
    }
  }

  ghost predicate UpTo(core: Core, bound: nat) {
    forall i | 0 <= i < |core.pool| :: core.pool[i].generation <= bound
  }

  /** The slots that left are released one by one. */
  lemma {:induction false} ReleasesAll(env: Env, s: State, rules: seq<Rule>, index: nat, bound: nat) returns (s': State)
    requires Owns(env, s) && index <= POOL_SIZE && s.threads[0].phase == Releasing(rules, index)
    requires UpTo(s.core, bound + 1) && bound + 1 < TWO32 && forall i | index <= i < POOL_SIZE :: s.core.pool[i].generation <= bound
    ensures Owns(env, s') && s'.threads == s.threads[0 := s.threads[0].(phase := Releasing(rules, POOL_SIZE))]
    ensures s'.core == s.core.(pool := s'.core.pool) && UpTo(s'.core, bound + 1)
    decreases POOL_SIZE - index
  {
    hide Reachable, Shaped;
    if index == POOL_SIZE {
      s' := s;
    } else {
      var t := ReleasesOne(env, s, rules, index, bound);
      s' := ReleasesAll(env, t, rules, index + 1, bound);
    }
  }

  lemma ReleasesOne(env: Env, s: State, rules: seq<Rule>, index: nat, bound: nat) returns (s': State)
    requires Owns(env, s) && index < POOL_SIZE && s.threads[0].phase == Releasing(rules, index)
    requires UpTo(s.core, bound + 1) && bound + 1 < TWO32 && forall i | index <= i < POOL_SIZE :: s.core.pool[i].generation <= bound
    ensures Owns(env, s') && s'.threads == s.threads[0 := s.threads[0].(phase := Releasing(rules, index + 1))]
    ensures s'.core == s.core.(pool := s'.core.pool) && UpTo(s'.core, bound + 1)
    ensures |s'.core.pool| == |s.core.pool| && forall i | index < i < POOL_SIZE :: s'.core.pool[i].generation <= bound
  {
    hide Reachable;
    assert UpTo(OwnerApply(env, s.core, s.threads[0], ReleaseOne(0)), bound + 1);
    s' := OwnerReaches(env, s, ReleaseOne(0));
  }

  /** What a finished reload leaves behind: the new list, on what was the inactive snapshot, and the old one as it was. */
  ghost predicate Republished(s: State, s': State, texts: seq<string>)
    requires Shaped(s.core) && Shaped(s'.core) && |s.threads| > 0
  {
    && s'.threads == s.threads[0 := Idle] && s'.core.active == Next(s.core)
    && s'.core.snapshots[s.core.active] == s.core.snapshots[s.core.active]
    && s'.core.lists[s.core.active] == s.core.lists[s.core.active]
    && Texts(s'.core.lists[s'.core.active]) == texts
    && FollowsTexts(s.core.lists[s.core.active], s'.core.lists[s'.core.active], s'.core.pool)
    && s'.core.wins == s.core.wins && s'.core.torn == s.core.torn
  }

  lemma EndsWrite(env: Env, s: State, rules: seq<Rule>) returns (s': State)
    requires Owns(env, s) && s.threads[0].phase == Releasing(rules, POOL_SIZE)
    ensures Owns(env, s') && s'.threads == AtPhase(s, Swapping)
    ensures s'.core == s.core.(snapshots := s'.core.snapshots, history := s'.core.history)
    ensures s'.core.snapshots[s.core.active] == s.core.snapshots[s.core.active]
  {
    hide Reachable, Bounded;
    s' := QuietOwnerStep(env, s, WriteEnd(0));
  }

  lemma StoresIndex(env: Env, s: State) returns (s': State)
    requires Owns(env, s) && s.threads[0].phase.Swapping?
    ensures Owns(env, s') && s'.threads == AtPhase(s, Stamping) && s'.core == s.core.(active := Next(s.core))
  {
    hide Reachable, Bounded;
    s' := QuietOwnerStep(env, s, Swap(0));
  }

  /** The sequence is made even, the index stored. */
  lemma Swaps(env: Env, s: State, rules: seq<Rule>) returns (s': State)
    requires Owns(env, s) && s.threads[0].phase == Releasing(rules, POOL_SIZE) && s.core.lists[Next(s.core)] == rules
    ensures Owns(env, s') && s'.threads == AtPhase(s, Stamping)
    ensures s'.core.active == Next(s.core) && s'.core.snapshots[s.core.active] == s.core.snapshots[s.core.active]
    ensures s'.core.lists == s.core.lists && s'.core.pool == s.core.pool
    ensures s'.core.wins == s.core.wins && s'.core.torn == s.core.torn
    ensures FollowsTexts(s.core.lists[s.core.active], rules, s.core.pool)
  {
    hide Reachable, Bounded, FollowsTexts;
    var ended := EndsWrite(env, s, rules);
    SwappingFollows(env, ended);
    s' := StoresIndex(env, ended);
  }

  lemma SwappingFollows(env: Env, s: State)
    requires Owns(env, s) && s.threads[0].phase.Swapping?
    ensures FollowsTexts(s.core.lists[s.core.active], s.core.lists[Next(s.core)], s.core.pool)
  {
    hide Reachable, RulesOk, ClaimsOk, HistoryOk, WordsOk, ReaderOk;
    ReachableInv(env, s);
    assert ThreadOk(env, s.core, s.threads[0]);
    SwapFollowsTexts(s.core);
  }

  /** Storing the observed stamp ends the reload. */
  lemma Publishes(env: Env, s: State) returns (s': State)
    requires Owns(env, s) && s.threads[0].phase.Stamping?
    ensures s' == WithThread(s, 0, Idle).(core := s.core.(cached := s.threads[0].observed))
    ensures Reachable(env, s') && Bounded(s'.core) && Shaped(s'.core)
  {
    hide Reachable;
    s' := WithThread(s, 0, Idle).(core := s.core.(cached := s.threads[0].observed));
    assert OwnerStep(env, s.core, s.threads[0], Publish(0), s'.core, s'.threads[0]);
    hide OwnerStep;
    assert Step(env, s, Publish(0), s');
    StepReaches(env, s, Publish(0), s');
  }

  /** From a clear on, any list of texts can be published. */
  lemma FinishReload(env: Env, s: State, texts: seq<string>, bound: nat) returns (s': State)
    requires Owns(env, s) && s.threads[0].phase.Wiping? && Inactive(s).cleared && s.threads[0].observed != RELOADING
    requires |texts| <= MAX_RULES && UpTo(s.core, bound) && bound + 1 < TWO32
    ensures Calm(env, s') && Republished(s, s', texts) && s'.core.cached == s.threads[0].observed && UpTo(s'.core, bound + 1)
  {
    hide Reachable, Bounded, FollowsTexts;
    var attached, rules := Completes(env, s, texts, bound);
    var released := ReleasesAll(env, attached, rules, 0, bound);
    var swapped := Swaps(env, released, rules);
    FollowsUnreleased(s, released, rules);
    s' := Publishes(env, swapped);
    assert s'.threads == s.threads[0 := Idle];
  }

  lemma FollowsUnreleased(s: State, released: State, rules: seq<Rule>)
    requires Shaped(s.core) && Shaped(released.core)
    requires released.core.active == s.core.active && released.core.lists[s.core.active] == s.core.lists[s.core.active]
    requires FollowsTexts(released.core.lists[s.core.active], rules, released.core.pool)
    ensures FollowsTexts(s.core.lists[s.core.active], rules, released.core.pool)
  {
  }

  /** The inactive snapshot is written in full. */
  lemma Completes(env: Env, s: State, texts: seq<string>, bound: nat) returns (s': State, rules: seq<Rule>)
    requires Owns(env, s) && s.threads[0].phase.Wiping? && Inactive(s).cleared
    requires |texts| <= MAX_RULES && UpTo(s.core, bound) && bound + 1 < TWO32
    ensures Owns(env, s') && s'.threads == s.threads[0 := s.threads[0].(phase := Releasing(rules, 0))]
    ensures s'.core.active == s.core.active && s'.core.snapshots[s.core.active] == s.core.snapshots[s.core.active]
    ensures s'.core.lists == s.core.lists[Next(s.core) := rules] && Texts(rules) == texts
    ensures s'.core.wins == s.core.wins && s'.core.torn == s.core.torn && UpTo(s'.core, bound)
  {
    hide Reachable, Bounded;
    var written := FinishClear(env, s);
    var parsed := Parses(env, written, texts);
    var given := AssignsAll(env, parsed, texts);
    s', rules := Attaches(env, given, texts);
  }

  /** Any list of texts within the limit can be published from any quiet state. */
  lemma Reload(env: Env, s: State, stamp: Stamp, texts: seq<string>, bound: nat) returns (s': State)
    requires Calm(env, s) && Observable(stamp) && stamp != RELOADING
    requires |texts| <= MAX_RULES && UpTo(s.core, bound) && bound + 1 < TWO32
    ensures Calm(env, s') && Republished(s, s', texts) && s'.core.cached == stamp && UpTo(s'.core, bound + 1)
  {
    hide Reachable, Bounded, FollowsTexts;
    var started := StartReload(env, s, stamp);
    s' := FinishReload(env, started, texts, bound);
    assert s'.threads == s.threads[0 := Idle];
  }

  // ---- Lookups -----------------------------------------------------------------------------

  /** Thread t may take steps of a lookup on snapshot k, which shows one rule. */
  ghost predicate Looks(env: Env, s: State, t: nat, k: nat) {
    && Reachable(env, s) && Shaped(s.core) && t < |s.threads| && k < 2
    && s.core.snapshots[k].count == 1
  }

  ghost function Cell(s: State, k: nat): Words
    requires Shaped(s.core) && k < 2
  {
    s.core.snapshots[k].cells[0]
  }

  lemma {:induction false} LoadsKey(env: Env, s: State, t: nat, query: nat, k: nat, begin: nat, loaded: nat) returns (s': State)
    requires Looks(env, s, t, k) && loaded <= KEY_WORDS
    requires s.threads[t] == Scanning(query, k, begin, 1, 0, Cell(s, k)[..loaded], None)
    ensures s' == WithThread(s, t, Scanning(query, k, begin, 1, 0, Cell(s, k)[..KEY_WORDS], None)) && Reachable(env, s')
    decreases KEY_WORDS - loaded
  {
    hide Reachable, Shaped, Bounded;
    if loaded == KEY_WORDS {
      s' := s;
      assert s'.threads == s.threads;
    } else {
      var next := LoadsWord(env, s, t, query, k, begin, loaded);
      s' := LoadsKey(env, next, t, query, k, begin, loaded + 1);
    }
  }

  lemma LoadsWord(env: Env, s: State, t: nat, query: nat, k: nat, begin: nat, loaded: nat) returns (s': State)
    requires Looks(env, s, t, k) && loaded < KEY_WORDS
    requires s.threads[t] == Scanning(query, k, begin, 1, 0, Cell(s, k)[..loaded], None)
    ensures s' == WithThread(s, t, Scanning(query, k, begin, 1, 0, Cell(s, k)[..loaded + 1], None)) && Reachable(env, s')
  {
    hide Reachable, Bounded;
    assert Cell(s, k)[..loaded + 1] == Cell(s, k)[..loaded] + [Cell(s, k)[loaded]];
    s' := ReadReaches(env, s, LoadKey(t), Scanning(query, k, begin, 1, 0, Cell(s, k)[..loaded + 1], None));
  }

  /** Up to the key: the sequence is sampled and the count found to be 1. */
  lemma Samples(env: Env, s: State, t: nat, query: nat, k: nat) returns (s': State)
    requires Looks(env, s, t, k) && s.threads[t] == Located(query, k)
    ensures s' == WithThread(s, t, Scanning(query, k, Shown(s.core.snapshots[k]), 1, 0, [], None)) && Reachable(env, s')
  {
    hide Reachable, Bounded;
    var begin := Shown(s.core.snapshots[k]);
    var sampled := ReadReaches(env, s, Sample(t), Sampled(query, k, begin));
    var tested := ReadReaches(env, sampled, CountTest(t), Counted(query, k, begin));
    s' := ReadReaches(env, tested, CountLoad(t), Scanning(query, k, begin, 1, 0, [], None));
    assert s'.threads == s.threads[t := Scanning(query, k, begin, 1, 0, [], None)];
  }

  /** The rule matches, and copying it begins. */
  lemma Selects(env: Env, s: State, t: nat, query: nat, k: nat, begin: nat) returns (s': State)
    requires Looks(env, s, t, k) && env.matches(query, Cell(s, k)[..KEY_WORDS])
    requires s.threads[t] == Scanning(query, k, begin, 1, 0, Cell(s, k)[..KEY_WORDS], None)
    ensures s' == WithThread(s, t, Copying(query, k, begin, 0, [])) && Reachable(env, s')
  {
    hide Reachable, Bounded;
    var judged := ReadReaches(env, s, Judge(t), Scanning(query, k, begin, 1, 1, [], Some(0)));
    s' := ReadReaches(env, judged, StartCopy(t), Copying(query, k, begin, 0, []));
    assert s'.threads == s.threads[t := Copying(query, k, begin, 0, [])];
  }

  lemma Scans(env: Env, s: State, t: nat, query: nat, k: nat) returns (s': State)
    requires Looks(env, s, t, k) && s.threads[t] == Located(query, k) && env.matches(query, Cell(s, k)[..KEY_WORDS])
    ensures s' == WithThread(s, t, Copying(query, k, Shown(s.core.snapshots[k]), 0, [])) && Reachable(env, s')
  {
    hide Reachable, Bounded;
    var begin := Shown(s.core.snapshots[k]);
    var sampled := Samples(env, s, t, query, k);
    var loaded := LoadsKey(env, sampled, t, query, k, begin, 0);
    s' := Selects(env, loaded, t, query, k, begin);
    assert s'.threads == s.threads[t := Copying(query, k, begin, 0, [])];
  }

  /** Copies words up to one; what was copied earlier may be of another rule. */
  lemma {:induction false} Copies(env: Env, s: State, t: nat, query: nat, k: nat, begin: nat, copied: seq<nat>, upTo: nat)
    returns (s': State)
    requires Looks(env, s, t, k) && |copied| <= upTo <= RULE_WORDS && s.threads[t] == Copying(query, k, begin, 0, copied)
    ensures s' == WithThread(s, t, Copying(query, k, begin, 0, copied + Cell(s, k)[|copied|..upTo])) && Reachable(env, s')
    decreases upTo - |copied|
  {
    hide Reachable, Bounded;
    if |copied| == upTo {
      assert copied + Cell(s, k)[|copied|..upTo] == copied;
      s' := s;
      assert s'.threads == s.threads;
    } else {
      var n := |copied|;
      var next := ReadReaches(env, s, CopyWord(t), Copying(query, k, begin, 0, copied + [Cell(s, k)[n]]));
      s' := Copies(env, next, t, query, k, begin, copied + [Cell(s, k)[n]], upTo);
      assert copied + [Cell(s, k)[n]] + Cell(s, k)[n + 1..upTo] == copied + Cell(s, k)[n..upTo];
    }
  }

  lemma Accepts(env: Env, s: State, t: nat, query: nat, k: nat, begin: nat, copy: Words) returns (s': State)
    requires Looks(env, s, t, k) && s.threads[t] == Copying(query, k, begin, 0, copy)
    requires begin % 2 == 0 && Shown(s.core.snapshots[k]) == begin
    ensures s' == WithThread(s, t, Holding(query, begin, copy)) && Reachable(env, s')
  {
    hide Reachable, Bounded;
    s' := ReadReaches(env, s, Validate(t), Holding(query, begin, copy));
  }

  // ---- Claims ------------------------------------------------------------------------------

  /** A held copy whose claim will succeed. */
  ghost predicate Claimable(core: Core, copy: Words)
    requires Shaped(core)
  {
    && 1 <= copy[SLOT_WORD] <= POOL_SIZE && copy[FIRST_WORD] != 0
    && var slot := core.pool[copy[SLOT_WORD] - 1];
       && slot.generation == copy[GENERATION_WORD] && Tag(slot.claimed) == slot.generation % TWO32
       && Claims(slot.claimed) < copy[FIRST_WORD] && Claims(slot.claimed) < TWO32 - 1
  }

  /** A copy fires: its claim succeeds. */
  lemma Fires(env: Env, s: State, t: nat, query: nat, begin: nat, copy: Words) returns (s': State)
    requires Reachable(env, s) && Shaped(s.core) && t < |s.threads| && s.threads[t] == Holding(query, begin, copy)
    requires Claimable(s.core, copy)
    ensures Reachable(env, s') && Shaped(s'.core) && s'.threads == s.threads[t := Counting(query, begin, copy)]
    ensures s'.core == s.core.(pool := s'.core.pool, wins := s'.core.wins, torn := s'.core.torn)
    ensures s'.core.wins == s.core.wins[TenureOf(copy) := Wins(s.core.wins, TenureOf(copy)) + 1]
  {
    hide Reachable, Bounded;
    var slot := s.core.pool[copy[SLOT_WORD] - 1];
    var fired := ReadReaches(env, s, Fire(t), Claiming(query, begin, copy));
    var loaded := ReadReaches(env, fired, LoadClaims(t), Trying(query, begin, copy, slot.claimed));
    s' := Swings(env, loaded, t);
    assert s'.threads == s.threads[t := Counting(query, begin, copy)];
  }

  lemma Swings(env: Env, s: State, t: nat) returns (s': State)
    requires Reachable(env, s) && Shaped(s.core) && t < |s.threads| && s.threads[t].Trying?
    requires var copy := s.threads[t].copy;
             1 <= copy[SLOT_WORD] <= POOL_SIZE && s.core.pool[copy[SLOT_WORD] - 1].claimed == s.threads[t].word
    ensures Reachable(env, s') && Shaped(s'.core)
    ensures s'.threads == s.threads[t := Counting(s.threads[t].query, s.threads[t].begin, s.threads[t].copy)]
    ensures s'.core == s.core.(pool := s'.core.pool, wins := s'.core.wins, torn := s'.core.torn)
    ensures var tenure := TenureOf(s.threads[t].copy); s'.core.wins == s.core.wins[tenure := Wins(s.core.wins, tenure) + 1]
  {
    var thread, n := s.threads[t], s.threads[t].copy[SLOT_WORD] - 1;
    var tenure := TenureOf(thread.copy);
    var core' := WithSlot(s.core, n, s.core.pool[n].(claimed := thread.word + 1))
                   .(wins := s.core.wins[tenure := Wins(s.core.wins, tenure) + 1],
                     torn := if thread.begin == 0 then s.core.torn + {tenure} else s.core.torn);
    s' := WithThread(s, t, Counting(thread.query, thread.begin, thread.copy)).(core := core');
    assert WriterStep(s.core, thread, Swing(t), core', s'.threads[t]);
    assert Bounded(core');
    hide Reachable, Bounded, WriterStep;
    assert Step(env, s, Swing(t), s');
    StepReaches(env, s, Swing(t), s');
  }

  // ---- Two runs that break a limit ---------------------------------------------------------

  const EMPTY := Snapshot(2, false, 0, NoRules())

  function FreshPool(): (pool: seq<Slot>)
    ensures |pool| == POOL_SIZE && forall i | 0 <= i < POOL_SIZE :: pool[i] == Slot(0, ClaimsNone(1), 0, 1, false)
  {
    seq(POOL_SIZE, i => Slot(0, ClaimsNone(1), 0, 1, false))
  }

  function Start(): State {
    State(Core(UNKNOWN, 0, [EMPTY, EMPTY], FreshPool(), [[], []], [[]], map[], map[], {}), [Idle, Idle, Idle])
  }

  lemma Starts(env: Env)
    ensures Calm(env, Start()) && UpTo(Start().core, 1)
  {
    var s := Start();
    assert Init(s);
    assert IsRun(env, Run([s], [])) && Ends(Run([s], []), s);
  }

  lemma SmallStamps()
    ensures Observable(1) && Observable(2) && 1 as Stamp != RELOADING && 2 as Stamp != RELOADING
  {
    assert Normalize(1) == 1 && Normalize(2) == 2;
  }

  /** Snapshot k holds the one rule. */
  ghost predicate Shows(env: Env, core: Core, k: nat, rule: Rule) {
    && Shaped(core) && k < 2 && core.lists[k] == [rule]
    && core.snapshots[k].count == 1 && core.snapshots[k].cells[0] == Image(env, rule)
  }

  /** A published list of one text shows one rule. */
  lemma ListShows(env: Env, s: State, text: string) returns (rule: Rule)
    requires Reachable(env, s) && Shaped(s.core) && Texts(s.core.lists[s.core.active]) == [text]
    ensures Shows(env, s.core, s.core.active, rule) && rule.text == text
  {
    hide Reachable, RulesOk, ClaimsOk, WordsOk, OwnerOk, ReaderOk;
    ReachableInv(env, s);
    var k := s.core.active;
    rule := s.core.lists[k][0];
    assert Texts(s.core.lists[k])[0] == text;
    assert s.core.lists[k] == [rule];
    assert s.core.snapshots[k].cells[..1][0] == Images(env, [rule])[0];
  }

  /** A copy's first words are its text's. */
  lemma ImageBegins(env: Env, rule: Rule, upTo: nat)
    requires upTo <= SLOT_WORD
    ensures Image(env, rule)[..upTo] == env.parse(rule.text)[..upTo]
  {
  }

  /** Thread 1 has copied some words of the rule of `text` from snapshot 1, in the middle of its clear. */
  ghost predicate MidClear(env: Env, s: State, text: string, query: nat, upTo: nat, rule: Rule) {
    && Owns(env, s) && |s.threads| == 3 && s.core.active == 0 && upTo <= SLOT_WORD
    && s.threads[0] == Owner(1, 2, Wiping) && s.core.snapshots[1].cleared
    && rule.text == text && Shows(env, s.core, 1, rule)
    && s.threads[1] == Copying(query, 1, 0, 0, env.parse(text)[..upTo]) && s.threads[2] == Idle
    && s.core.wins == map[] && UpTo(s.core, 3)
  }

  /** A first reload publishes the rule, a reader locates its snapshot, and a second reload publishes nothing. */
  lemma LocatesOld(env: Env, text: string, query: nat) returns (s: State, rule: Rule)
    ensures Calm(env, s) && s.threads == [Idle, Located(query, 1), Idle] && s.core.active == 0 && s.core.cached == 2
    ensures rule.text == text && Shows(env, s.core, 1, rule) && s.core.wins == map[] && UpTo(s.core, 3)
  {
    hide Reachable, Observable, Bounded, FollowsTexts;
    Starts(env);
    SmallStamps();
    var first := Reload(env, Start(), 1, [text], 1);
    rule := ListShows(env, first, text);
    var located := ReadReaches(env, first, Locate(1, query), Located(query, 1));
    s := Reload(env, located, 2, [], 2);
  }

  /** A third reload starts to clear the rule's snapshot; the reader samples 0 and copies some words. */
  lemma CopiesInClear(env: Env, text: string, query: nat, upTo: nat) returns (s: State, rule: Rule)
    requires env.matches(query, env.parse(text)[..KEY_WORDS]) && upTo <= SLOT_WORD
    ensures MidClear(env, s, text, query, upTo, rule)
  {
    hide Reachable, Observable, Bounded;
    var located;
    located, rule := LocatesOld(env, text, query);
    SmallStamps();
    var started := StartReload(env, located, 1);
    ImageBegins(env, rule, KEY_WORDS);
    ImageBegins(env, rule, upTo);
    var scanned := Scans(env, started, 1, query, 1);
    s := Copies(env, scanned, 1, query, 1, 0, [], upTo);
    assert [] + Cell(scanned, 1)[0..upTo] == env.parse(text)[..upTo];
    assert s.threads == [Owner(1, 2, Wiping), Copying(query, 1, 0, 0, env.parse(text)[..upTo]), Idle];
  }

  /** A copy without a slot is no rule that was ever published, and fires. */
  lemma NoSlotIsNoRule(env: Env, s: State, query: nat, begin: nat, copy: Words)
    requires Reachable(env, s) && copy[SLOT_WORD] == 0
    ensures Shaped(s.core) && !Selected(env, s.core.history, query, copy)
    ensures ReaderStep(env, s.core, Holding(query, begin, copy), Fire(1), Holding(query, begin, copy))
  {
    hide Reachable, Selected;
    ReachableInv(env, s);
    if Selected(env, s.core.history, query, copy) {
      CopyTenure(env, s.core, query, copy);
    }
  }

  /**
   * A rule with a limit fires without claiming: the clear zeroes its slot word while a reader copies
   * it between two reads of the zeroed sequence. What the reader then holds is no rule ever published.
   */
  lemma LimitedRuleFiresUnclaimed(env: Env, text: string, query: nat) returns (s: State)
    requires env.matches(query, env.parse(text)[..KEY_WORDS]) && First(env, text) > 0
    ensures Reachable(env, s) && Shaped(s.core) && |s.threads| == 3 && s.threads[1].Holding?
    ensures s.threads[1].begin == 0 && !Selected(env, s.core.history, query, s.threads[1].copy)
    ensures s.threads[1].copy[FIRST_WORD] == First(env, text) && s.threads[1].copy[SLOT_WORD] == 0
    ensures ReaderStep(env, s.core, s.threads[1], Fire(1), s.threads[1])
  {
    hide Reachable, Bounded, Selected, ReaderStep;
    var seen, rule := CopiesInClear(env, text, query, SLOT_WORD);
    hide Shows, UpTo;
    var zeroed := WriteReaches(env, seen, 0, SLOT_WORD, 0);
    var words := env.parse(text)[..SLOT_WORD];
    var copied := Copies(env, zeroed, 1, query, 1, 0, words, RULE_WORDS);
    var copy: Words := words + Cell(zeroed, 1)[SLOT_WORD..RULE_WORDS];
    s := Accepts(env, copied, 1, query, 1, 0, copy);
    NoSlotIsNoRule(env, s, query, 0, copy);
  }

  /** A text that survives a reload alone keeps its slot and generation. */
  lemma SurvivorIsSame(departing: Rule, rule: Rule, pool: seq<Slot>)
    requires FollowsTexts([departing], [rule], pool) && departing.text == rule.text
    ensures departing == rule
  {
    assert departing in [departing] && rule in [rule];
    assert [departing][0].slot.Some? && [departing][0].text == rule.text;
    assert FindActive([departing], rule.text) == departing.slot;
    assert rule.slot.value in HeldSlots([rule]);
  }

  /** The rule's snapshot is then filled with a rule of another text, which is published twice. */
  lemma ReplacesRule(env: Env, s: State, other: string, text: string, query: nat, rule: Rule) returns (s': State, rule': Rule)
    requires MidClear(env, s, other, query, FIRST_WORD + 1, rule)
    ensures Calm(env, s') && s'.threads == [Idle, s.threads[1], Idle] && s'.core.active == 0 && s'.core.cached == 2
    ensures rule'.text == text && Shows(env, s'.core, 0, rule') && Shows(env, s'.core, 1, rule') && s'.core.wins == map[]
  {
    hide Reachable, Observable, Bounded, FollowsTexts;
    SmallStamps();
    var first := FinishReload(env, s, [text], 3);
    var departing := ListShows(env, first, text);
    s' := Reload(env, first, 2, [text], 4);
    rule' := ListShows(env, s', text);
    SurvivorIsSame(departing, rule', s'.core.pool);
    assert s'.threads == [Idle, s.threads[1], Idle];
  }

  /** Thread 1 holds one rule's limit with the slot and generation of the other, which is active. */
  ghost predicate Joined(env: Env, s: State, other: string, text: string, query: nat, rule: Rule) {
    && Owns(env, s) && |s.threads| == 3 && s.core.active == 0 && s.threads[0].phase.Wiping?
    && s.threads[1].Holding? && s.threads[1].begin == 0 && s.threads[1].query == query && s.threads[2] == Idle
    && s.threads[1].copy[FIRST_WORD] == First(env, other)
    && s.threads[1].copy[SLOT_WORD] == SlotWord(rule.slot) && s.threads[1].copy[GENERATION_WORD] == rule.generation
    && rule.text == text && Shows(env, s.core, 0, rule)
  }

  /** The next clear of that snapshot lets the reader finish its copy, of the other rule, and accept it. */
  lemma JoinsTwoRules(env: Env, other: string, text: string, query: nat) returns (s: State, rule: Rule)
    requires env.matches(query, env.parse(other)[..KEY_WORDS])
    ensures Joined(env, s, other, text, query, rule) && s.core.wins == map[]
  {
    hide Reachable, Observable, Bounded;
    var seen, departed := CopiesInClear(env, other, query, FIRST_WORD + 1);
    var replaced;
    replaced, rule := ReplacesRule(env, seen, other, text, query, departed);
    SmallStamps();
    var started := StartReload(env, replaced, 1);
    var words := env.parse(other)[..FIRST_WORD + 1];
    var copied := Copies(env, started, 1, query, 1, 0, words, RULE_WORDS);
    s := Accepts(env, copied, 1, query, 1, 0, words + Cell(started, 1)[FIRST_WORD + 1..RULE_WORDS]);
  }

  /** While its snapshot is active a rule's slot is at its generation, and its claim word counts its wins. */
  lemma ActiveRuleIn(env: Env, s: State, rule: Rule)
    requires Owns(env, s) && s.threads[0].phase.Wiping? && Shows(env, s.core, s.core.active, rule)
    ensures rule.slot.Some? && rule.slot.value < POOL_SIZE
    ensures var slot, tenure := s.core.pool[rule.slot.value], Tenure(rule.slot.value, rule.generation);
            && slot.generation == rule.generation == Tag(slot.claimed) < TWO32
            && Claims(slot.claimed) == Wins(s.core.wins, tenure)
            && tenure in s.core.tenants && s.core.tenants[tenure] == rule.text
  {
    hide Reachable, WordsOk, ReaderOk, WinsOk;
    ReachableInv(env, s);
    assert ThreadOk(env, s.core, s.threads[0]);
    assert rule in s.core.lists[s.core.active];
    assert rule.slot.value in HeldSlots(s.core.lists[s.core.active]);
    assert SlotClaimsOk(s.core, rule.slot.value);
    var h :| 0 <= h < |s.core.history| && s.core.history[h] == s.core.lists[s.core.active];
    assert TenantsOk(s.core.tenants, s.core.history[h]);
  }

  /** A reader that meets no clear copies the active rule whole. */
  lemma CopiesWhole(env: Env, s: State, t: nat, query: nat, rule: Rule) returns (s': State)
    requires Owns(env, s) && t < |s.threads| && s.threads[t] == Idle
    requires Shows(env, s.core, s.core.active, rule) && env.matches(query, env.parse(rule.text)[..KEY_WORDS])
    ensures Reachable(env, s')
    ensures exists begin :: s' == WithThread(s, t, Holding(query, begin, Image(env, rule)))
  {
    hide Reachable, Bounded;
    var k := s.core.active;
    ActiveIsEven(env, s);
    ImageBegins(env, rule, KEY_WORDS);
    var located := ReadReaches(env, s, Locate(t, query), Located(query, k));
    var scanned := Scans(env, located, t, query, k);
    var begin := Shown(s.core.snapshots[k]);
    var copied := Copies(env, scanned, t, query, k, begin, [], RULE_WORDS);
    assert [] + Cell(s, k)[0..RULE_WORDS] == Image(env, rule);
    s' := Accepts(env, copied, t, query, k, begin, Image(env, rule));
    assert s'.threads == s.threads[t := Holding(query, begin, Image(env, rule))];
  }

  lemma ActiveIsEven(env: Env, s: State)
    requires Reachable(env, s) && Shaped(s.core)
    ensures Shown(s.core.snapshots[s.core.active]) % 2 == 0
  {
    hide Reachable;
    ReachableInv(env, s);
  }

  /** A limit of 1 is claimed twice: once by a whole copy, once by the joined one. */
  lemma ClaimedTwice(env: Env, s: State, other: string, text: string, query: nat, rule: Rule) returns (s': State)
    requires Joined(env, s, other, text, query, rule) && s.core.wins == map[]
    requires env.matches(query, env.parse(text)[..KEY_WORDS]) && First(env, text) == 1 < First(env, other)
    ensures Reachable(env, s') && rule.slot.Some?
    ensures var tenure := Tenure(rule.slot.value, rule.generation);
            tenure in s'.core.tenants && s'.core.tenants[tenure] == text && Wins(s'.core.wins, tenure) == 2
  {
    hide Reachable, Bounded;
    ActiveRuleIn(env, s, rule);
    var held := CopiesWhole(env, s, 2, query, rule);
    var once := Fires(env, held, 2, query, held.threads[2].begin, held.threads[2].copy);
    ReachableBounded(env, once);
    ActiveRuleIn(env, once, rule);
    s' := Fires(env, once, 1, query, 0, s.threads[1].copy);
  }

  lemma ReachableBounded(env: Env, s: State)
    requires Reachable(env, s)
    ensures Bounded(s.core)
  {
  }

  /** So the limit of one rule is overdrawn in the name of another's, in a run of two clears of one snapshot. */
  lemma LimitIsOverdrawn(env: Env, other: string, text: string, query: nat) returns (run: Run, tenure: Tenure)
    requires env.matches(query, env.parse(text)[..KEY_WORDS]) && env.matches(query, env.parse(other)[..KEY_WORDS])
    requires First(env, text) == 1 < First(env, other)
    ensures IsRun(env, run) && |run.states| == |run.actions| + 1
    ensures var last := run.states[|run.actions|].core; tenure in last.tenants && last.tenants[tenure] == text
    ensures ClaimsMade(run, tenure, |run.actions|) == 2 > First(env, text)
  {
    hide IsRun, Bounded, ClaimsMade, Joined;
    var joined, rule := JoinsTwoRules(env, other, text, query);
    var s := ClaimedTwice(env, joined, other, text, query, rule);
    tenure := Tenure(rule.slot.value, rule.generation);
    run :| IsRun(env, run) && Ends(run, s);
    RunLength(env, run);
    WinsCountClaims(env, run, tenure, |run.actions|);
  }
}
