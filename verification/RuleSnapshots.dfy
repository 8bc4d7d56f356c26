/**
 * Lock-free rule snapshots: the reload election, the seqlock, the hit slots and the `@first`
 * claims, as one transition system.
 *
 * Any number of threads interleave, one shared access per action, over sequentially consistent
 * memory. A thread may stat the rule file and try to become the reload owner, copy a rule out of
 * the active snapshot word by word, and fire a copy it holds. The owner first clears the inactive
 * snapshot, its sequence word included, then puts the sequence back and writes whatever it parses.
 */
module RuleSnapshots {
  import opened Options
  import opened HitPool
  import Selection

  // ---- Change stamps -----------------------------------------------------------------------

  type Stamp = bv64
  const MISSING: Stamp := 0
  const RELOADING: Stamp := 0xffff_ffff_ffff_fffe
  const UNKNOWN: Stamp := 0xffff_ffff_ffff_ffff

  /** Moves a hash that equals a sentinel off it. */
  function Normalize(hash: Stamp): Stamp {
    if hash == MISSING || hash == RELOADING || hash == UNKNOWN then hash ^ 0x9e37_79b9_7f4a_7c15 else hash
  }

  /** What a stat of the rule file can yield: no file, or the stamp of one. */
  ghost predicate Observable(stamp: Stamp) {
    stamp == MISSING || exists hash :: stamp == Normalize(hash)
  }

  lemma NormalizeAvoidsSentinels(hash: Stamp)
    ensures Normalize(hash) != MISSING && Normalize(hash) != RELOADING && Normalize(hash) != UNKNOWN
  {
    assert MISSING ^ 0x9e37_79b9_7f4a_7c15 == 0x9e37_79b9_7f4a_7c15;
    assert RELOADING ^ 0x9e37_79b9_7f4a_7c15 == 0x61c8_8646_80b5_83eb;
    assert UNKNOWN ^ 0x9e37_79b9_7f4a_7c15 == 0x61c8_8646_80b5_83ea;
  }

  // ---- Memory ------------------------------------------------------------------------------

  /** Words of a rule structure: the fields the selection reads come first. */
  const RULE_WORDS: nat := 144
  const KEY_WORDS: nat := 132
  const LENGTH_WORD: nat := 128
  const FIRST_WORD: nat := 135
  const SLOT_WORD: nat := 142
  const GENERATION_WORD: nat := 143

  type Words = w: seq<nat> | |w| == RULE_WORDS witness seq(RULE_WORDS, _ => 0)

  /** A rule structure after a clear. */
  function Zero(): (words: Words)
    ensures forall w | 0 <= w < RULE_WORDS :: words[w] == 0
  {
    seq(RULE_WORDS, _ => 0)
  }

  /** All rule structures after a clear. */
  function NoRules(): (cells: seq<Words>)
    ensures |cells| == MAX_RULES && forall i | 0 <= i < MAX_RULES :: cells[i] == Zero()
  {
    seq(MAX_RULES, _ => Zero())
  }

  /**
   * A snapshot in memory; `cells` are its rule structures, of which `count` are in use. While it is
   * `cleared` its sequence word holds 0, and the owner keeps `sequence` to put it back.
   */
  datatype Snapshot = Snapshot(sequence: nat, cleared: bool, count: nat, cells: seq<Words>)

  /** What a load of the sequence word yields. */
  function Shown(snapshot: Snapshot): nat {
    if snapshot.cleared then 0 else snapshot.sequence
  }

  /** A rule's slot within a reload generation: the unit an `@first` allowance belongs to. */
  datatype Tenure = Tenure(slot: nat, generation: nat)

  /**
   * Shared state. `lists[k]` are the texts and slots stored in snapshot k when it was last
   * completed. `history` (every list ever completed), `tenants` (the text a slot was handed to),
   * `wins` (successful claims) and `torn` (tenures claimed under by copies that were accepted with
   * a sampled sequence of 0) only record what happened.
   */
  datatype Core = Core(
    cached: Stamp,
    active: nat,
    snapshots: seq<Snapshot>,
    pool: seq<Slot>,
    lists: seq<seq<Rule>>,
    history: seq<seq<Rule>>,
    tenants: map<Tenure, string>,
    wins: map<Tenure, nat>,
    torn: set<Tenure>)

  /** The parser, which derives a rule's words from its text, and the matcher of a call's query. */
  datatype Env = Env(parse: string -> Words, matches: (nat, seq<nat>) -> bool)

  function SlotWord(slot: Option<nat>): nat {
    if slot.Some? then slot.value + 1 else 0
  }

  /** A rule as it lies in memory. */
  function Image(env: Env, rule: Rule): Words {
    env.parse(rule.text)[SLOT_WORD := SlotWord(rule.slot)][GENERATION_WORD := rule.generation]
  }

  function First(env: Env, text: string): nat {
    env.parse(text)[FIRST_WORD]
  }

  function Key(env: Env, query: nat, words: Words): Option<nat> {
    if env.matches(query, words[..KEY_WORDS]) then Some(words[LENGTH_WORD]) else None
  }

  function Keys(env: Env, query: nat, cells: seq<Words>): (keys: seq<Option<nat>>)
    ensures |keys| == |cells|
  {
    seq(|cells|, i requires 0 <= i < |cells| => Key(env, query, cells[i]))
  }

  function Images(env: Env, rules: seq<Rule>): (cells: seq<Words>)
    ensures |cells| == |rules|
  {
    seq(|rules|, i requires 0 <= i < |rules| => Image(env, rules[i]))
  }

  /** `copy` is what a lookup run alone on one completed snapshot returns. */
  ghost predicate SelectedFrom(env: Env, rules: seq<Rule>, query: nat, copy: seq<nat>) {
    var best := Selection.Best(Keys(env, query, Images(env, rules)));
    best.Some? && copy == Image(env, rules[best.value])
  }

  ghost predicate Selected(env: Env, history: seq<seq<Rule>>, query: nat, copy: seq<nat>) {
    exists h :: 0 <= h < |history| && SelectedFrom(env, history[h], query, copy)
  }

  // ---- Threads -----------------------------------------------------------------------------

  /** Where a reload stands. */
  datatype Phase =
    | Claimed
    | Wiping
    | Writing
    | Restoring
    | Assigning(texts: seq<string>, next: seq<Option<nat>>, cursor: nat)
    | Clearing(texts: seq<string>, next: seq<Option<nat>>, slot: nat)
    | Attaching(rules: seq<Rule>)
    | Releasing(rules: seq<Rule>, index: nat)
    | Swapping
    | Stamping

  /** A copy held, claimed for or counted keeps the sequence it was accepted with, as `begin`. */
  datatype Thread =
    | Idle
    | Observed(observed: Stamp)
    | Loaded(observed: Stamp, seen: Stamp)
    | Owner(observed: Stamp, previous: Stamp, phase: Phase)
    | Located(query: nat, snap: nat)
    | Sampled(query: nat, snap: nat, begin: nat)
    | Counted(query: nat, snap: nat, begin: nat)
    | Scanning(query: nat, snap: nat, begin: nat, count: nat, index: nat, key: seq<nat>, best: Option<nat>)
    | Copying(query: nat, snap: nat, begin: nat, from: nat, copied: seq<nat>)
    | Holding(query: nat, begin: nat, copy: Words)
    | Claiming(query: nat, begin: nat, copy: Words)
    | Trying(query: nat, begin: nat, copy: Words, word: nat)
    | Counting(query: nat, begin: nat, copy: Words)

  datatype State = State(core: Core, threads: seq<Thread>)

  /** Each action is one step of the thread `t`. */
  datatype Action =
    | Observe(t: nat, stamp: Stamp)
    | Load(t: nat)
    | Claim(t: nat)
    | Leave(t: nat)
    | WriteBegin(t: nat)
    | WipeSequence(t: nat)
    | RestoreSequence(t: nat)
    | WriteWord(t: nat, cell: nat, word: nat, value: nat)
    | WriteCount(t: nat, value: nat)
    | Abort(t: nat)
    | Parsed(t: nat, texts: seq<string>)
    | Keep(t: nat)
    | Clear(t: nat)
    | Hand(t: nat)
    | NoSlot(t: nat)
    | AllAssigned(t: nat)
    | Attached(t: nat)
    | ReleaseOne(t: nat)
    | WriteEnd(t: nat)
    | Swap(t: nat)
    | Publish(t: nat)
    | Restore(t: nat)
    | Locate(t: nat, query: nat)
    | Sample(t: nat)
    | CountTest(t: nat)
    | CountLoad(t: nat)
    | LoadKey(t: nat)
    | Judge(t: nat)
    | StartCopy(t: nat)
    | CopyWord(t: nat)
    | Validate(t: nat)
    | Fire(t: nat)
    | LoadClaims(t: nat)
    | Swing(t: nat)
    | Record(t: nat)

  function Next(core: Core): nat
    requires core.active < 2
  {
    1 - core.active
  }

  ghost predicate Shaped(core: Core) {
    && core.active < 2
    && |core.snapshots| == 2 && |core.lists| == 2
    && |core.pool| == POOL_SIZE
    && (forall k | 0 <= k < 2 ::
          && |core.snapshots[k].cells| == MAX_RULES
          && core.snapshots[k].count <= MAX_RULES
          && |core.lists[k]| <= MAX_RULES
          && InPool(core.lists[k], POOL_SIZE))
  }

  /** Local indices of a thread stay within the arrays they index. */
  ghost predicate WellFormed(thread: Thread) {
    match thread
    case Owner(_, _, Assigning(texts, next, cursor)) => |next| <= |texts| && cursor <= POOL_SIZE
    case Owner(_, _, Clearing(texts, next, slot)) => |next| < |texts| && slot < POOL_SIZE
    case Owner(_, _, Attaching(rules)) => |rules| <= MAX_RULES && InPool(rules, POOL_SIZE)
    case Owner(_, _, Releasing(rules, index)) => |rules| <= MAX_RULES && index <= POOL_SIZE && InPool(rules, POOL_SIZE)
    case Located(_, snap) => snap < 2
    case Sampled(_, snap, _) => snap < 2
    case Counted(_, snap, _) => snap < 2
    case Scanning(_, snap, _, count, index, key, best) =>
      snap < 2 && count <= MAX_RULES && index <= count && |key| <= KEY_WORDS && (best.Some? ==> best.value < index)
    case Copying(_, snap, _, from, copied) => snap < 2 && from < MAX_RULES && |copied| <= RULE_WORDS
    case _ => true
  }

  ghost predicate AllShaped(s: State) {
    && Shaped(s.core)
    && forall t | 0 <= t < |s.threads| :: WellFormed(s.threads[t])
  }

  // ---- Steps of the owner ------------------------------------------------------------------

  /**
   * Words the owner may write: zeros while it clears; anything but a slot while it parses; the slots
   * and generations of the new rules while it attaches them.
   */
  predicate Writable(phase: Phase, cell: nat, word: nat, value: nat) {
    && cell < MAX_RULES && word < RULE_WORDS
    && match phase
       case Wiping => value == 0
       case Writing => word == SLOT_WORD ==> value == 0
       case Attaching(rules) =>
         && cell < |rules|
         && (|| (word == SLOT_WORD && value == SlotWord(rules[cell].slot))
             || (word == GENERATION_WORD && value == rules[cell].generation))
       case _ => false
  }

  /** Whether the owner, at `phase`, may take the step. */
  ghost predicate OwnerEnabled(env: Env, core: Core, phase: Phase, a: Action)
    requires Shaped(core)
  {
    var inactive := core.snapshots[Next(core)];
    match a
    case WriteBegin(_) => phase.Claimed? || phase.Writing?
    case WipeSequence(_) => phase.Wiping? && !inactive.cleared
    case RestoreSequence(_) =>
      && phase.Wiping? && inactive.cleared && inactive.count == 0 && inactive.cells == NoRules()
    case WriteWord(_, cell, word, value) => Writable(phase, cell, word, value)
    case WriteCount(_, value) => (phase.Writing? && value <= MAX_RULES) || (phase.Wiping? && value == 0)
    case Abort(_) => phase.Writing?
    case Parsed(_, texts) => phase.Writing? && |texts| <= MAX_RULES && inactive.count == |texts|
    case Keep(_) =>
      phase.Assigning? && |phase.next| < |phase.texts| &&
      FindActive(core.lists[core.active], phase.texts[|phase.next|]).Some?
    case Clear(_) =>
      phase.Assigning? && |phase.next| < |phase.texts| && phase.cursor <= POOL_SIZE &&
      FindActive(core.lists[core.active], phase.texts[|phase.next|]).None? &&
      NextFree(core.pool, phase.cursor) < POOL_SIZE
    case NoSlot(_) =>
      phase.Assigning? && |phase.next| < |phase.texts| && phase.cursor <= POOL_SIZE &&
      FindActive(core.lists[core.active], phase.texts[|phase.next|]).None? &&
      NextFree(core.pool, phase.cursor) == POOL_SIZE
    case Hand(_) => phase.Clearing? && phase.slot < POOL_SIZE && |phase.next| < |phase.texts|
    case AllAssigned(_) => phase.Assigning? && |phase.next| == |phase.texts|
    case Attached(_) =>
      phase.Attaching? && |phase.rules| <= MAX_RULES && InPool(phase.rules, POOL_SIZE) &&
      inactive.count == |phase.rules| && inactive.cells[..|phase.rules|] == Images(env, phase.rules)
    case ReleaseOne(_) => phase.Releasing? && phase.index < POOL_SIZE
    case WriteEnd(_) => phase.Releasing? && phase.index == POOL_SIZE
    case Swap(_) => phase.Swapping?
    case Publish(_) => phase.Stamping?
    case Restore(_) => phase.Restoring?
    case _ => false
  }

  /** The phase the step leads to; Publish and Restore end the reload. */
  function OwnerPhase(core: Core, phase: Phase, a: Action): Phase
    requires Shaped(core)
  {
    match (a, phase)
    case (WriteBegin(_), _) => Wiping
    case (RestoreSequence(_), _) => Writing
    case (Abort(_), _) => Restoring
    case (Parsed(_, texts), _) => Assigning(texts, [], 0)
    case (Keep(_), Assigning(texts, next, cursor)) =>
      if |next| < |texts| then Assigning(texts, next + [FindActive(core.lists[core.active], texts[|next|])], cursor) else phase
    case (Clear(_), Assigning(texts, next, cursor)) =>
      if cursor <= |core.pool| then Clearing(texts, next, NextFree(core.pool, cursor)) else phase
    case (NoSlot(_), Assigning(texts, next, cursor)) => Assigning(texts, next + [None], POOL_SIZE)
    case (Hand(_), Clearing(texts, next, slot)) => Assigning(texts, next + [Some(slot)], slot)
    case (AllAssigned(_), Assigning(texts, next, cursor)) =>
      if |next| == |texts| then Attaching(Attach(texts, next, core.pool)) else phase
    case (Attached(_), Attaching(rules)) => Releasing(rules, 0)
    case (ReleaseOne(_), Releasing(rules, index)) => Releasing(rules, index + 1)
    case (WriteEnd(_), _) => Swapping
    case (Swap(_), _) => Stamping
    case _ => phase
  }

  function Odd(sequence: nat): nat {
    if sequence % 2 == 0 then sequence + 1 else sequence
  }

  function Even(sequence: nat): nat {
    if sequence % 2 == 0 then sequence else sequence + 1
  }

  function WithNext(core: Core, snapshot: Snapshot): Core
    requires Shaped(core)
  {
    core.(snapshots := core.snapshots[Next(core) := snapshot])
  }

  function WithSlot(core: Core, s: nat, slot: Slot): Core
    requires s < |core.pool|
  {
    core.(pool := core.pool[s := slot])
  }

  /** The owner's step on shared memory. */
  function OwnerApply(env: Env, core: Core, thread: Thread, a: Action): Core
    requires Shaped(core) && thread.Owner? && OwnerEnabled(env, core, thread.phase, a)
  {
    var phase := thread.phase;
    var inactive := core.snapshots[Next(core)];
    match a
    case WriteBegin(_) => WithNext(core, inactive.(sequence := Odd(inactive.sequence)))
    case WipeSequence(_) => WithNext(core, inactive.(cleared := true))
    case RestoreSequence(_) => WithNext(core, inactive.(cleared := false))
    case WriteWord(_, cell, word, value) =>
      WithNext(core, inactive.(cells := inactive.cells[cell := inactive.cells[cell][word := value]]))
    case WriteCount(_, value) => WithNext(core, inactive.(count := value))
    case Keep(_) =>
      var kept := FindActive(core.lists[core.active], phase.texts[|phase.next|]).value;
      assert kept < POOL_SIZE by { KeptSlotInPool(core.lists[core.active], phase.texts[|phase.next|], POOL_SIZE); }
      WithSlot(core, kept, core.pool[kept].(used := true))
    case Clear(_) =>
      var free := NextFree(core.pool, phase.cursor);
      WithSlot(core, free, core.pool[free].(count := 0))
    case Hand(_) =>
      var slot := core.pool[phase.slot];
      WithSlot(core, phase.slot, slot.(claimed := ClaimsNone(slot.generation), state := 0, used := true))
        .(tenants := core.tenants[Tenure(phase.slot, slot.generation) := phase.texts[|phase.next|]])
    case Attached(_) => core.(lists := core.lists[Next(core) := phase.rules])
    case ReleaseOne(_) =>
      WithSlot(core, phase.index, ReleaseSlot(core.pool[phase.index], phase.index in HeldSlots(phase.rules)))
    case WriteEnd(_) =>
      WithNext(core, inactive.(sequence := Even(inactive.sequence))).(history := core.history + [phase.rules])
    case Swap(_) => core.(active := Next(core))
    case Publish(_) => core.(cached := thread.observed)
    case Restore(_) => core.(cached := thread.previous)
    case _ => core
  }

  // ---- Steps of the other threads ----------------------------------------------------------

  /**
   * Reads of a lookup: the thread's next local state, from one load of shared memory. A copy without
   * a slot fires as it is, with no claim and no count.
   */
  ghost predicate ReaderStep(env: Env, core: Core, thread: Thread, a: Action, thread': Thread)
    requires Shaped(core)
  {
    match (a, thread)
    case (Observe(_, stamp), Idle) => Observable(stamp) && thread' == Observed(stamp)
    case (Load(_), Observed(observed)) => thread' == Loaded(observed, core.cached)
    case (Leave(_), Owner(_, _, _)) => false
    case (Leave(_), _) => thread' == Idle
    case (Locate(_, query), Idle) => thread' == Located(query, core.active)
    case (Sample(_), Located(query, snap)) =>
      snap < 2 && thread' == Sampled(query, snap, Shown(core.snapshots[snap]))
    case (CountTest(_), Sampled(query, snap, begin)) =>
      snap < 2 && thread' == if core.snapshots[snap].count == 0 then Idle else Counted(query, snap, begin)
    case (CountLoad(_), Counted(query, snap, begin)) =>
      snap < 2 && thread' == Scanning(query, snap, begin, core.snapshots[snap].count, 0, [], None)
    case (LoadKey(_), Scanning(query, snap, begin, count, index, key, best)) =>
      && snap < 2 && index < count <= MAX_RULES && |key| < KEY_WORDS
      && thread' == thread.(key := key + [core.snapshots[snap].cells[index][|key|]])
    case (Judge(_), Scanning(query, snap, begin, count, index, key, best)) =>
      && snap < 2 && index < count <= MAX_RULES && |key| == KEY_WORDS && (best.Some? ==> best.value < index)
      && var own := if env.matches(query, key) then Some(key[LENGTH_WORD]) else None;
         var bestLength := if best.Some? then core.snapshots[snap].cells[best.value][LENGTH_WORD] else 0;
         thread' == thread.(index := index + 1, key := [], best := Selection.Better(best, bestLength, index, own))
    case (StartCopy(_), Scanning(query, snap, begin, count, index, key, best)) =>
      && index == count <= MAX_RULES && (best.Some? ==> best.value < index)
      && thread' == if best.None? then Idle else Copying(query, snap, begin, best.value, [])
    case (CopyWord(_), Copying(query, snap, begin, from, copied)) =>
      && snap < 2 && from < MAX_RULES && |copied| < RULE_WORDS
      && thread' == thread.(copied := copied + [core.snapshots[snap].cells[from][|copied|]])
    case (Validate(_), Copying(query, snap, begin, from, copied)) =>
      && snap < 2 && |copied| == RULE_WORDS
      && thread' == if begin % 2 == 0 && Shown(core.snapshots[snap]) == begin then Holding(query, begin, copied) else Idle
    case (Fire(_), Holding(query, begin, copy)) =>
      && copy[SLOT_WORD] <= POOL_SIZE
      && thread' == if copy[SLOT_WORD] == 0 then thread
                    else if core.pool[copy[SLOT_WORD] - 1].generation != copy[GENERATION_WORD] then Idle
                    else if copy[FIRST_WORD] != 0 then Claiming(query, begin, copy) else Counting(query, begin, copy)
    case (LoadClaims(_), Claiming(query, begin, copy)) =>
      && 1 <= copy[SLOT_WORD] <= POOL_SIZE
      && var word := core.pool[copy[SLOT_WORD] - 1].claimed;
         thread' == if Tag(word) != copy[GENERATION_WORD] % TWO32 || Claims(word) >= copy[FIRST_WORD] || Claims(word) == TWO32 - 1
                    then Idle else Trying(query, begin, copy, word)
    case _ => false
  }

  function Wins(wins: map<Tenure, nat>, tenure: Tenure): nat {
    if tenure in wins then wins[tenure] else 0
  }

  function TenureOf(copy: Words): Tenure
    requires copy[SLOT_WORD] > 0
  {
    Tenure(copy[SLOT_WORD] - 1, copy[GENERATION_WORD])
  }

  /** The three steps by which threads other than the owner change shared memory. */
  ghost predicate WriterStep(core: Core, thread: Thread, a: Action, core': Core, thread': Thread)
    requires Shaped(core)
  {
    match (a, thread)
    case (Claim(_), Loaded(observed, seen)) =>
      && seen != RELOADING
      && if core.cached == seen
         then core' == core.(cached := RELOADING) && thread' == Owner(observed, seen, Claimed)
         else core' == core && thread' == Idle
    case (Swing(_), Trying(query, begin, copy, word)) =>
      && 1 <= copy[SLOT_WORD] <= POOL_SIZE
      && var s := copy[SLOT_WORD] - 1;
         if core.pool[s].claimed == word
         then
           && core' == WithSlot(core, s, core.pool[s].(claimed := word + 1))
                         .(wins := core.wins[TenureOf(copy) := Wins(core.wins, TenureOf(copy)) + 1],
                           torn := if begin == 0 then core.torn + {TenureOf(copy)} else core.torn)
           && thread' == Counting(query, begin, copy)
         else core' == core && thread' == Claiming(query, begin, copy)
    case (Record(_), Counting(query, begin, copy)) =>
      && 1 <= copy[SLOT_WORD] <= POOL_SIZE
      && var s := copy[SLOT_WORD] - 1;
         core' == WithSlot(core, s, core.pool[s].(count := core.pool[s].count + 1)) && thread' == Holding(query, begin, copy)
    case _ => false
  }

  ghost predicate OwnerStep(env: Env, core: Core, thread: Thread, a: Action, core': Core, thread': Thread)
    requires Shaped(core)
  {
    && thread.Owner? && OwnerEnabled(env, core, thread.phase, a)
    && core' == OwnerApply(env, core, thread, a)
    && thread' == if a.Publish? || a.Restore? then Idle else thread.(phase := OwnerPhase(core, thread.phase, a))
  }

  ghost predicate Step(env: Env, s: State, a: Action, s': State)
    requires Shaped(s.core)
  {
    && a.t < |s.threads| && |s'.threads| == |s.threads|
    && s'.threads == s.threads[a.t := s'.threads[a.t]]
    && ( || (s'.core == s.core && ReaderStep(env, s.core, s.threads[a.t], a, s'.threads[a.t]))
         || WriterStep(s.core, s.threads[a.t], a, s'.core, s'.threads[a.t])
         || OwnerStep(env, s.core, s.threads[a.t], a, s'.core, s'.threads[a.t]))
  }

  /** The state chaos_io_config_init leaves, for any number of threads. */
  ghost predicate Init(s: State) {
    && Shaped(s.core)
    && s.core.cached == UNKNOWN && s.core.active == 0
    && (forall k | 0 <= k < 2 :: s.core.snapshots[k] == Snapshot(2, false, 0, NoRules()))
    && s.core.lists == [[], []] && s.core.history == [[]]
    && (forall i | 0 <= i < POOL_SIZE :: !s.core.pool[i].used && s.core.pool[i].claimed == ClaimsNone(s.core.pool[i].generation))
    && s.core.tenants == map[] && s.core.wins == map[] && s.core.torn == {}
    && forall t | 0 <= t < |s.threads| :: s.threads[t] == Idle
  }

  /** A run of the system in which no slot's generation has wrapped its 32-bit tag. */
  ghost predicate Bounded(core: Core) {
    forall i | 0 <= i < |core.pool| :: core.pool[i].generation < TWO32
  }
}
