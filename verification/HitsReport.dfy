/**
 * The hits-file writer as a transition system: any number of threads count hits on the slots of
 * one snapshot and report them; a flag taken by CAS elects one writer at a time, and a `pending`
 * mark carries the hits that found the writer busy.
 *
 * Whether a hit is due (the eager count, the interval, the pid check) is left open: a thread may
 * always decide it is not and leave its hit pending.
 */
module HitsReport {
  import opened Options

  /**
   * `written` are the counts the last finished write read. Two fields only record: `deferred`,
   * that a hit was left not due since the last write began, and `due`, for each slot the largest
   * count that a due hit brought it to.
   */
  datatype Core = Core(counts: seq<nat>, pending: bool, writing: bool, written: seq<nat>,
    deferred: bool, due: seq<nat>)

  /** A hit on a slot, which brought the slot's count to `value`. */
  datatype Hit = Hit(slot: nat, value: nat)

  datatype Thread =
    | Idle
    | Counted(hit: Hit)
    | SawClear(hit: Hit)
    | Marked(mine: Option<Hit>)
    | Trying
    | Looking
    | Clearing
    | Writing(values: seq<nat>)
    | Releasing
    | Checking

  datatype State = State(core: Core, threads: seq<Thread>)

  datatype Action =
    | CountHit(t: nat, slot: nat)
    | Flush(t: nat)
    | LoadPending(t: nat)
    | SetPending(t: nat)
    | Due(t: nat)
    | NotDue(t: nat)
    | TakeFlag(t: nat)
    | Look(t: nat)
    | ClearPending(t: nat)
    | ReadCount(t: nat)
    | FinishWrite(t: nat)
    | Release(t: nat)
    | Check(t: nat)

  /** The records after a hit, if this is one, was found due. */
  function Raised(due: seq<nat>, mine: Option<Hit>): seq<nat> {
    if mine.Some? && mine.value.slot < |due| && due[mine.value.slot] < mine.value.value
    then due[mine.value.slot := mine.value.value] else due
  }

  /** One step of the thread; the do-while loop is Trying .. Checking, its inner loop Looking .. Writing. */
  ghost predicate ThreadStep(core: Core, thread: Thread, a: Action, core': Core, thread': Thread) {
    match (a, thread)
    case (CountHit(_, slot), Idle) =>
      && slot < |core.counts|
      && core' == core.(counts := core.counts[slot := core.counts[slot] + 1])
      && thread' == Counted(Hit(slot, core'.counts[slot]))
    case (Flush(_), Idle) => core' == core && thread' == if core.pending then Marked(None) else Idle
    case (LoadPending(_), Counted(hit)) =>
      core' == core && thread' == if core.pending then Marked(Some(hit)) else SawClear(hit)
    case (SetPending(_), SawClear(hit)) => core' == core.(pending := true) && thread' == Marked(Some(hit))
    case (Due(_), Marked(mine)) => core' == core.(due := Raised(core.due, mine)) && thread' == Trying
    case (NotDue(_), Marked(_)) => core' == core.(deferred := true) && thread' == Idle
    case (TakeFlag(_), Trying) =>
      if core.writing then core' == core && thread' == Idle
      else core' == core.(writing := true) && thread' == Looking
    case (Look(_), Looking) => core' == core && thread' == if core.pending then Clearing else Releasing
    case (ClearPending(_), Clearing) => core' == core.(pending := false, deferred := false) && thread' == Writing([])
    case (ReadCount(_), Writing(values)) =>
      && |values| < |core.counts|
      && core' == core && thread' == Writing(values + [core.counts[|values|]])
    case (FinishWrite(_), Writing(values)) =>
      |values| == |core.counts| && core' == core.(written := values) && thread' == Looking
    case (Release(_), Releasing) => core' == core.(writing := false) && thread' == Checking
    case (Check(_), Checking) => core' == core && thread' == if core.pending then Trying else Idle
    case _ => false
  }

  ghost predicate Step(s: State, a: Action, s': State) {
    && a.t < |s.threads| == |s'.threads|
    && s'.threads == s.threads[a.t := s'.threads[a.t]]
    && ThreadStep(s.core, s.threads[a.t], a, s'.core, s'.threads[a.t])
  }

  ghost predicate Init(s: State) {
    && s.core.written == s.core.counts == s.core.due
    && !s.core.pending && !s.core.writing && !s.core.deferred
    && forall t | 0 <= t < |s.threads| :: s.threads[t] == Idle
  }

  // ---- The invariant -----------------------------------------------------------------------

  predicate Holds(thread: Thread) {
    thread.Looking? || thread.Clearing? || thread.Writing? || thread.Releasing?
  }

  /** The thread will yet mark its hit, or yet look at the mark. */
  predicate WillMark(thread: Thread) {
    thread.Counted? || thread.SawClear?
  }

  predicate WillServe(thread: Thread) {
    thread.Marked? || thread.Trying? || Holds(thread) || thread.Checking?
  }

  /** The writer has yet to read the slot, or read its present count. */
  ghost predicate WillWrite(thread: Thread, slot: nat, count: nat) {
    thread.Writing? && (|thread.values| <= slot || thread.values[slot] == count)
  }

  /** The flag is set exactly while one thread holds it. */
  ghost predicate OneWriter(s: State) {
    && (forall t, u | 0 <= t < |s.threads| && 0 <= u < |s.threads| && Holds(s.threads[t]) && Holds(s.threads[u]) :: t == u)
    && (s.core.writing <==> exists t :: 0 <= t < |s.threads| && Holds(s.threads[t]))
  }

  /** A pending mark was deferred or has a thread that will serve it. */
  ghost predicate PendingServed(s: State) {
    s.core.pending ==> s.core.deferred || exists t :: 0 <= t < |s.threads| && WillServe(s.threads[t])
  }

  /** A count is written, or marked, or about to be. */
  ghost predicate SlotServed(s: State, slot: nat)
    requires slot < |s.core.counts| == |s.core.written|
  {
    || s.core.written[slot] == s.core.counts[slot]
    || s.core.pending
    || (exists t :: 0 <= t < |s.threads| && WillMark(s.threads[t]))
    || (exists t :: 0 <= t < |s.threads| && WillWrite(s.threads[t], slot, s.core.counts[slot]))
  }

  /** The writer has yet to read the slot, or has read at least this count. */
  ghost predicate Covers(thread: Thread, hit: Hit) {
    thread.Writing? && (|thread.values| <= hit.slot || thread.values[hit.slot] >= hit.value)
  }

  /** The thread will look at the mark before it leaves, or else find another that will. */
  predicate WillLook(thread: Thread) {
    thread.Trying? || Holds(thread) || thread.Checking?
  }

  /** The hit is written, or its mark still stands, or the write in progress covers it. */
  ghost predicate HitKept(s: State, hit: Hit) {
    && hit.slot < |s.core.counts| == |s.core.written|
    && hit.value <= s.core.counts[hit.slot]
    && (|| hit.value <= s.core.written[hit.slot]
        || s.core.pending
        || exists t :: 0 <= t < |s.threads| && Covers(s.threads[t], hit))
  }

  /** Whatever hit the thread has marked is kept, and one it has yet to mark is counted. */
  ghost predicate ThreadKept(s: State, thread: Thread) {
    match thread
    case Counted(hit) => hit.slot < |s.core.counts| && hit.value <= s.core.counts[hit.slot]
    case SawClear(hit) => hit.slot < |s.core.counts| && hit.value <= s.core.counts[hit.slot]
    case Marked(Some(hit)) => HitKept(s, hit)
    case _ => true
  }

  /** Due hits are kept, and a standing mark of theirs has a thread that will look at it. */
  ghost predicate DueServed(s: State, slot: nat)
    requires slot < |s.core.due| == |s.core.written|
  {
    && HitKept(s, Hit(slot, s.core.due[slot]))
    && (|| s.core.due[slot] <= s.core.written[slot]
        || exists t :: 0 <= t < |s.threads| && WillLook(s.threads[t]))
  }

  /** Counts only grow, so a write in progress is no older than the last and no newer than now. */
  ghost predicate InOrder(core: Core, thread: Thread) {
    && |core.written| == |core.counts| == |core.due|
    && (forall k | 0 <= k < |core.counts| :: core.written[k] <= core.counts[k])
    && (thread.Writing? ==>
          && |thread.values| <= |core.counts|
          && forall k | 0 <= k < |thread.values| :: core.written[k] <= thread.values[k] <= core.counts[k])
  }

  ghost predicate Inv(s: State) {
    && InOrder(s.core, Idle)
    && (forall t | 0 <= t < |s.threads| :: InOrder(s.core, s.threads[t]))
    && OneWriter(s) && PendingServed(s)
    && (forall slot | 0 <= slot < |s.core.counts| :: SlotServed(s, slot) && DueServed(s, slot))
    && forall t | 0 <= t < |s.threads| :: ThreadKept(s, s.threads[t])
  }

  lemma OneWriterKeeps(s: State, a: Action, s': State)
    requires Inv(s) && Step(s, a, s')
    ensures OneWriter(s')
  {
    hide SlotServed, DueServed, ThreadKept, InOrder, PendingServed;
    assert forall t | 0 <= t < |s.threads| && t != a.t :: s'.threads[t] == s.threads[t];
    if s'.core.writing {
      if Holds(s'.threads[a.t]) {
      } else {
        var t :| 0 <= t < |s.threads| && Holds(s.threads[t]);
        assert t != a.t && Holds(s'.threads[t]);
      }
    }
  }

  /** A thread that gives up on a busy flag leaves its mark to the flag's holder. */
  lemma PendingServedKeeps(s: State, a: Action, s': State)
    requires Inv(s) && Step(s, a, s')
    ensures PendingServed(s')
  {
    hide SlotServed, DueServed, ThreadKept, InOrder;
    var thread, thread' := s.threads[a.t], s'.threads[a.t];
    assert forall t | 0 <= t < |s.threads| && t != a.t :: s'.threads[t] == s.threads[t];
    if s'.core.pending && !s'.core.deferred && !WillServe(thread') {
      if a.TakeFlag? {
        var t :| 0 <= t < |s.threads| && Holds(s.threads[t]);
        assert WillServe(s'.threads[t]);
      } else {
        var t :| 0 <= t < |s.threads| && WillServe(s.threads[t]);
        assert t != a.t;
        assert WillServe(s'.threads[t]);
      }
    }
  }

  lemma SlotServedKeeps(s: State, a: Action, s': State, slot: nat)
    requires Inv(s) && Step(s, a, s') && slot < |s.core.counts| && |s'.core.counts| == |s'.core.written| == |s.core.counts|
    ensures SlotServed(s', slot)
  {
    hide DueServed, ThreadKept, PendingServed;
    var thread, thread' := s.threads[a.t], s'.threads[a.t];
    assert forall t | 0 <= t < |s.threads| && t != a.t :: s'.threads[t] == s.threads[t];
    assert SlotServed(s, slot) && InOrder(s.core, thread);
    if WillMark(thread') || WillWrite(thread', slot, s'.core.counts[slot]) {
    } else if exists t :: 0 <= t < |s.threads| && WillMark(s.threads[t]) {
      var t :| 0 <= t < |s.threads| && WillMark(s.threads[t]);
      assert t == a.t || WillMark(s'.threads[t]);
    } else if exists t :: 0 <= t < |s.threads| && WillWrite(s.threads[t], slot, s.core.counts[slot]) {
      var t :| 0 <= t < |s.threads| && WillWrite(s.threads[t], slot, s.core.counts[slot]);
      if t != a.t {
        assert WillWrite(s'.threads[t], slot, s.core.counts[slot]);
        assert Holds(s.threads[t]);
      }
    }
  }

  /** A mark is cleared only by a thread that then reads every slot anew. */
  lemma HitKeptKeeps(s: State, a: Action, s': State, hit: Hit)
    requires Inv(s) && Step(s, a, s') && HitKept(s, hit)
    ensures HitKept(s', hit)
  {
    hide SlotServed, DueServed, ThreadKept, PendingServed;
    assert forall t | 0 <= t < |s.threads| && t != a.t :: s'.threads[t] == s.threads[t];
    assert InOrder(s.core, s.threads[a.t]);
    if !(hit.value <= s.core.written[hit.slot]) && !s.core.pending {
      var t :| 0 <= t < |s.threads| && Covers(s.threads[t], hit);
      if t != a.t {
        assert Covers(s'.threads[t], hit);
        assert Holds(s.threads[t]);
      } else {
        assert a.FinishWrite? || Covers(s'.threads[t], hit);
      }
    } else if a.ClearPending? {
      assert Covers(s'.threads[a.t], hit);
    }
  }

  lemma ThreadKeptKeeps(s: State, a: Action, s': State, t: nat)
    requires Inv(s) && Step(s, a, s') && t < |s.threads|
    ensures ThreadKept(s', s'.threads[t])
  {
    hide SlotServed, DueServed, PendingServed, OneWriter;
    assert ThreadKept(s, s.threads[t]);
    match s.threads[t] {
      case Marked(Some(hit)) => HitKeptKeeps(s, a, s', hit);
      case _ =>
    }
  }

  /** A thread that gives up on a busy flag leaves the due hits to the flag's holder. */
  lemma DueServedKeeps(s: State, a: Action, s': State, slot: nat)
    requires Inv(s) && Step(s, a, s') && slot < |s.core.counts|
    ensures slot < |s'.core.due| == |s'.core.written| && DueServed(s', slot)
  {
    hide SlotServed, PendingServed, OneWriter;
    var thread, thread' := s.threads[a.t], s'.threads[a.t];
    assert DueServed(s, slot) && ThreadKept(s, thread);
    var hit := Hit(slot, s'.core.due[slot]);
    assert HitKept(s, hit);
    HitKeptKeeps(s, a, s', hit);
    assert forall t | 0 <= t < |s.threads| && t != a.t :: s'.threads[t] == s.threads[t];
    if WillLook(thread') {
    } else if hit.value > s'.core.written[slot] {
      var t := LookerRemains(s, a, s', hit);
    }
  }

  /** Whoever stops looking leaves another looking, unless the hit is written. */
  lemma LookerRemains(s: State, a: Action, s': State, hit: Hit) returns (t: nat)
    requires Inv(s) && Step(s, a, s') && !WillLook(s'.threads[a.t])
    requires hit.slot < |s.core.counts| && hit.value == s.core.due[hit.slot] == s'.core.due[hit.slot]
    requires HitKept(s', hit) && hit.value > s'.core.written[hit.slot]
    ensures t < |s'.threads| && WillLook(s'.threads[t])
  {
    hide SlotServed, ThreadKept, PendingServed;
    assert forall t | 0 <= t < |s.threads| && t != a.t :: s'.threads[t] == s.threads[t];
    assert DueServed(s, hit.slot);
    if a.TakeFlag? {
      t :| 0 <= t < |s.threads| && Holds(s.threads[t]);
    } else if a.Check? {
      t :| 0 <= t < |s'.threads| && Covers(s'.threads[t], hit);
    } else {
      t :| 0 <= t < |s.threads| && WillLook(s.threads[t]);
    }
  }

  lemma InOrderKeeps(s: State, a: Action, s': State)
    requires Inv(s) && Step(s, a, s')
    ensures InOrder(s'.core, Idle) && forall t | 0 <= t < |s'.threads| :: InOrder(s'.core, s'.threads[t])
  {
    hide SlotServed, DueServed, ThreadKept, PendingServed;
    assert InOrder(s.core, s.threads[a.t]);
    forall t | 0 <= t < |s'.threads| && t != a.t ensures InOrder(s'.core, s'.threads[t]) {
      assert s'.threads[t] == s.threads[t] && InOrder(s.core, s.threads[t]);
      assert Holds(s.threads[t]) && Holds(s.threads[a.t]) ==> t == a.t;
    }
  }

  lemma StepKeeps(s: State, a: Action, s': State)
    requires Inv(s) && Step(s, a, s')
    ensures Inv(s')
  {
    OneWriterKeeps(s, a, s');
    PendingServedKeeps(s, a, s');
    InOrderKeeps(s, a, s');
    forall slot | 0 <= slot < |s'.core.counts| ensures SlotServed(s', slot) {
      SlotServedKeeps(s, a, s', slot);
    }
    forall slot | 0 <= slot < |s'.core.counts| ensures DueServed(s', slot) {
      DueServedKeeps(s, a, s', slot);
    }
    forall t | 0 <= t < |s'.threads| ensures ThreadKept(s', s'.threads[t]) {
      ThreadKeptKeeps(s, a, s', t);
    }
  }

  // ---- Theorems ----------------------------------------------------------------------------

  datatype Run = Run(states: seq<State>, actions: seq<Action>)

  ghost predicate Moves(run: Run, i: nat)
    requires |run.states| == |run.actions| + 1 && i < |run.actions|
  {
    Step(run.states[i], run.actions[i], run.states[i + 1])
  }

  ghost predicate IsRun(run: Run) {
    && |run.states| == |run.actions| + 1
    && Init(run.states[0])
    && forall i | 0 <= i < |run.actions| :: Moves(run, i)
  }

  lemma {:induction false} RunKeepsInv(run: Run, i: nat)
    requires IsRun(run) && i < |run.states|
    ensures Inv(run.states[i])
  {
    if i > 0 {
      RunKeepsInv(run, i - 1);
      assert Moves(run, i - 1);
      StepKeeps(run.states[i - 1], run.actions[i - 1], run.states[i]);
    }
  }

  /** At most one thread at a time is between taking and releasing the flag, so only one writes. */
  lemma OneWriterAtATime(run: Run, i: nat, t: nat, u: nat)
    requires IsRun(run) && i < |run.states|
    requires t < |run.states[i].threads| && u < |run.states[i].threads|
    requires Holds(run.states[i].threads[t]) && Holds(run.states[i].threads[u])
    ensures t == u
  {
    RunKeepsInv(run, i);
  }

  ghost predicate Quiescent(s: State) {
    forall t | 0 <= t < |s.threads| :: s.threads[t] == Idle
  }

  /** With no thread inside and nothing pending, the last write read every slot's present count. */
  lemma QuietCountsAreWritten(run: Run, i: nat)
    requires IsRun(run) && i < |run.states| && Quiescent(run.states[i]) && !run.states[i].core.pending
    ensures run.states[i].core.written == run.states[i].core.counts
  {
    RunKeepsInv(run, i);
    var s := run.states[i];
    forall slot | 0 <= slot < |s.core.counts| ensures s.core.written[slot] == s.core.counts[slot] {
      assert SlotServed(s, slot);
    }
  }

  /**
   * With no thread inside, something is pending only if a hit since the last write began was left
   * because it was not due, and otherwise every hit is in the last write.
   */
  lemma OnlyDeferredHitsWait(run: Run, i: nat)
    requires IsRun(run) && i < |run.states| && Quiescent(run.states[i])
    ensures run.states[i].core.pending ==> run.states[i].core.deferred
    ensures !run.states[i].core.deferred ==> run.states[i].core.written == run.states[i].core.counts
  {
    RunKeepsInv(run, i);
    if !run.states[i].core.pending {
      QuietCountsAreWritten(run, i);
    }
  }

  lemma {:induction false} DueGrows(run: Run, j: nat, i: nat, slot: nat)
    requires IsRun(run) && j <= i < |run.states| && slot < |run.states[j].core.due|
    ensures |run.states[i].core.due| == |run.states[j].core.due|
    ensures run.states[j].core.due[slot] <= run.states[i].core.due[slot]
  {
    if j < i {
      DueGrows(run, j, i - 1, slot);
      assert Moves(run, i - 1);
    }
  }

  /**
   * No due hit is lost, whether its thread found the writer busy or not and whatever other hits
   * were left not due: once every thread has left, the last write has counted it.
   */
  lemma DueHitsAreNotLost(run: Run, j: nat, i: nat)
    requires IsRun(run) && j < i < |run.states| && Quiescent(run.states[i])
    requires run.actions[j].Due? && run.actions[j].t < |run.states[j].threads|
    ensures
      var thread := run.states[j].threads[run.actions[j].t];
      && thread.Marked?
      && (thread.mine.Some? ==>
            && thread.mine.value.slot < |run.states[i].core.written|
            && run.states[i].core.written[thread.mine.value.slot] >= thread.mine.value.value)
  {
    var s := run.states[j];
    assert Moves(run, j);
    var mine := s.threads[run.actions[j].t].mine;
    if mine.Some? {
      RunKeepsInv(run, j);
      assert ThreadKept(s, s.threads[run.actions[j].t]);
      DueGrows(run, j + 1, i, mine.value.slot);
      RunKeepsInv(run, i);
      assert DueServed(run.states[i], mine.value.slot);
    }
  }

  // ---- What is written, and that it is --------------------------------------------------------

  /** Hits on a slot among the first n steps. */
  ghost function HitsOn(run: Run, slot: nat, n: nat): nat
    requires n <= |run.actions|
  {
    if n == 0 then 0
    else HitsOn(run, slot, n - 1) + if run.actions[n - 1].CountHit? && run.actions[n - 1].slot == slot then 1 else 0
  }

  /** A slot's count is what it was at first and the hits on it since. */
  lemma {:induction false} CountsAreHits(run: Run, slot: nat, n: nat)
    requires IsRun(run) && n <= |run.actions| && slot < |run.states[0].core.counts|
    ensures |run.states[n].core.counts| == |run.states[0].core.counts|
    ensures run.states[n].core.counts[slot] == run.states[0].core.counts[slot] + HitsOn(run, slot, n)
  {
    if n > 0 {
      CountsAreHits(run, slot, n - 1);
      assert Moves(run, n - 1);
    }
  }

  /** Steps that follow one another, from any state. */
  ghost predicate Leads(states: seq<State>, actions: seq<Action>) {
    |states| == |actions| + 1 && forall i | 0 <= i < |actions| :: Step(states[i], actions[i], states[i + 1])
  }

  ghost predicate LeadsAlone(states: seq<State>, actions: seq<Action>, s: State, t: nat, core: Core, thread: Thread) {
    && Leads(states, actions) && states[0] == s && t < |s.threads| && (forall a | a in actions :: a.t == t)
    && states[|actions|] == State(core, s.threads[t := thread])
  }

  /** One more step of the thread that runs alone. */
  lemma Then(states: seq<State>, actions: seq<Action>, s: State, t: nat, core: Core, thread: Thread,
             a: Action, core': Core, thread': Thread) returns (states': seq<State>, actions': seq<Action>)
    requires LeadsAlone(states, actions, s, t, core, thread) && a.t == t && ThreadStep(core, thread, a, core', thread')
    ensures LeadsAlone(states', actions', s, t, core', thread')
  {
    hide ThreadStep;
    var before, after := states[|actions|], State(core', s.threads[t := thread']);
    assert Step(before, a, after);
    states', actions' := states + [after], actions + [a];
    forall i | 0 <= i < |actions'| ensures Step(states'[i], actions'[i], states'[i + 1]) {
      if i < |actions| {
        assert Step(states[i], actions[i], states[i + 1]);
      }
    }
  }

  lemma {:induction false} ReadsOn(states: seq<State>, actions: seq<Action>, s: State, t: nat, core: Core, k: nat)
    returns (states': seq<State>, actions': seq<Action>)
    requires k <= |core.counts| && LeadsAlone(states, actions, s, t, core, Writing(core.counts[..k]))
    ensures LeadsAlone(states', actions', s, t, core, Writing(core.counts))
    decreases |core.counts| - k
  {
    hide LeadsAlone;
    if k == |core.counts| {
      assert core.counts[..k] == core.counts;
      states', actions' := states, actions;
    } else {
      var read := Writing(core.counts[..k] + [core.counts[k]]);
      assert core.counts[..k + 1] == core.counts[..k] + [core.counts[k]];
      states', actions' := Then(states, actions, s, t, core, Writing(core.counts[..k]), ReadCount(t), core, read);
      states', actions' := ReadsOn(states', actions', s, t, core, k + 1);
    }
  }

  /** From taking the flag to the end of its first write. */
  lemma WritesOnce(s: State, t: nat) returns (states: seq<State>, actions: seq<Action>)
    requires t < |s.threads| && s.threads[t].Trying? && s.core.pending && !s.core.writing
    ensures LeadsAlone(states, actions, s, t,
              s.core.(writing := true, pending := false, deferred := false, written := s.core.counts), Looking)
  {
    var taken := s.core.(writing := true);
    var cleared := taken.(pending := false, deferred := false);
    assert s == State(s.core, s.threads[t := Trying]);
    assert LeadsAlone([s], [], s, t, s.core, Trying);
    hide LeadsAlone;
    states, actions := Then([s], [], s, t, s.core, Trying, TakeFlag(t), taken, Looking);
    states, actions := Then(states, actions, s, t, taken, Looking, Look(t), taken, Clearing);
    states, actions := Then(states, actions, s, t, taken, Clearing, ClearPending(t), cleared, Writing([]));
    assert cleared.counts[..0] == [];
    states, actions := ReadsOn(states, actions, s, t, cleared, 0);
    var written := cleared.(written := cleared.counts);
    states, actions := Then(states, actions, s, t, cleared, Writing(cleared.counts), FinishWrite(t), written, Looking);
  }

  /**
   * A thread that found its mark due writes: left to itself while nobody holds the flag, it ends with
   * every count written, nothing pending, the flag free, and no other thread disturbed.
   */
  lemma DueThreadWrites(s: State, t: nat) returns (states: seq<State>, actions: seq<Action>)
    requires t < |s.threads| && s.threads[t].Trying? && s.core.pending && !s.core.writing
    ensures Leads(states, actions) && states[0] == s && forall a | a in actions :: a.t == t
    ensures states[|actions|] == State(s.core.(pending := false, deferred := false, written := s.core.counts), s.threads[t := Idle])
  {
    states, actions := WritesOnce(s, t);
    var written := s.core.(writing := true, pending := false, deferred := false, written := s.core.counts);
    var freed := written.(writing := false);
    assert LeadsAlone(states, actions, s, t, freed, Idle) ==> Leads(states, actions);
    states, actions := Then(states, actions, s, t, written, Looking, Look(t), written, Releasing);
    states, actions := Then(states, actions, s, t, written, Releasing, Release(t), freed, Checking);
    states, actions := Then(states, actions, s, t, freed, Checking, Check(t), freed, Idle);
  }

  /** A flush goes on exactly when something is pending, and a hit, marked or found marked, always does. */
  lemma MarksAreLookedAt(run: Run, i: nat)
    requires IsRun(run) && i < |run.actions|
    requires run.actions[i].Flush? || run.actions[i].LoadPending? || run.actions[i].SetPending?
    ensures run.actions[i].t < |run.states[i].threads| == |run.states[i + 1].threads|
    ensures var a, before, after := run.actions[i], run.states[i], run.states[i + 1];
            && (a.Flush? ==> after.threads[a.t] == if before.core.pending then Marked(None) else Idle)
            && (a.LoadPending? && before.core.pending ==> after.threads[a.t].Marked? && after.threads[a.t].mine.Some?)
            && (a.SetPending? ==> after.core.pending && after.threads[a.t].Marked? && after.threads[a.t].mine.Some?)
  {
    assert Moves(run, i);
  }
}
