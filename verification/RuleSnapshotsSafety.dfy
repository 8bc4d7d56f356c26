/**
 * Safety of the rule-snapshot protocol over every run: one reload owner at a time, an active
 * snapshot nobody writes, slots that follow texts, lock-free copies that are whole published rules
 * when they were accepted with a sampled sequence other than 0, and `@first` allowances that such
 * copies never overdraw.
 */
module RuleSnapshotsSafety {
  import opened Options
  import opened HitPool
  import opened RuleSnapshots
  import Selection

  // ---- The invariant -----------------------------------------------------------------------

  /** Snapshot memory holds exactly the rules `rules`. */
  ghost predicate Completed(env: Env, snapshot: Snapshot, rules: seq<Rule>) {
    && snapshot.count == |rules| <= |snapshot.cells|
    && snapshot.cells[..|rules|] == Images(env, rules)
  }

  /** An even snapshot is complete and its list was published; only an odd one is cleared. */
  ghost predicate HistoryOk(env: Env, core: Core)
    requires Shaped(core)
  {
    && core.snapshots[core.active].sequence % 2 == 0
    && (forall k | 0 <= k < 2 ::
          core.snapshots[k].sequence >= 2 && (core.snapshots[k].cleared ==> core.snapshots[k].sequence % 2 == 1))
    && forall k | 0 <= k < 2 && core.snapshots[k].sequence % 2 == 0 ::
         Completed(env, core.snapshots[k], core.lists[k]) && core.lists[k] in core.history
  }

  /** Every rule has a slot in the pool, and its tenure belongs to its text. */
  ghost predicate TenantsOk(tenants: map<Tenure, string>, rules: seq<Rule>) {
    forall r | r in rules ::
      && r.slot.Some? && r.slot.value < POOL_SIZE
      && Tenure(r.slot.value, r.generation) in tenants
      && tenants[Tenure(r.slot.value, r.generation)] == r.text
  }

  ghost predicate RulesOk(core: Core) {
    forall h | 0 <= h < |core.history| :: TenantsOk(core.tenants, core.history[h])
  }

  function Allowance(first: nat): nat {
    if first < TWO32 - 1 then first else TWO32 - 1
  }

  ghost predicate SlotClaimsOk(core: Core, i: nat)
    requires i < |core.pool|
  {
    var slot := core.pool[i];
    && Wins(core.wins, Tenure(i, Tag(slot.claimed))) == Claims(slot.claimed)
    && (slot.used ==> Tag(slot.claimed) == slot.generation && Tenure(i, slot.generation) in core.tenants)
    && (!slot.used ==> Tenure(i, slot.generation) !in core.tenants)
  }

  /** Wins fit the claim word, and the limit where no copy accepted with sequence 0 has claimed. */
  ghost predicate WinsOk(env: Env, core: Core) {
    forall tenure | tenure in core.wins && core.wins[tenure] > 0 ::
      && tenure in core.tenants && core.wins[tenure] < TWO32
      && (tenure !in core.torn ==> core.wins[tenure] <= Allowance(First(env, core.tenants[tenure])))
  }

  ghost predicate ClaimsOk(env: Env, core: Core) {
    && (forall i | 0 <= i < |core.pool| :: SlotClaimsOk(core, i))
    && (forall tenure | tenure in core.tenants ::
          tenure.slot < |core.pool| && tenure.generation <= core.pool[tenure.slot].generation)
    && WinsOk(env, core)
  }

  /** The slot was handed to some text, now or earlier. */
  ghost predicate Handed(core: Core, s: nat) {
    s < |core.pool| && Tenure(s, Tag(core.pool[s].claimed)) in core.tenants
  }

  /** A slot word is NULL or names a slot that was handed out. */
  ghost predicate SlotWordOk(core: Core, word: nat) {
    word != 0 ==> word <= POOL_SIZE && Handed(core, word - 1)
  }

  /** So are all slot words in memory, half written or cleared snapshots included. */
  ghost predicate WordsOk(core: Core)
    requires Shaped(core)
  {
    forall k, i | 0 <= k < 2 && 0 <= i < MAX_RULES :: SlotWordOk(core, core.snapshots[k].cells[i][SLOT_WORD])
  }

  /** The rules own their slots: same generation as the slot's. */
  ghost predicate Live(rules: seq<Rule>, pool: seq<Slot>) {
    forall r | r in rules :: r.slot.Some? && r.slot.value < |pool| && r.generation == pool[r.slot.value].generation
  }

  /** Exactly the active snapshot's slots are in use. */
  ghost predicate Matched(core: Core)
    requires Shaped(core)
  {
    Settled(core.pool, core.lists[core.active]) && Live(core.lists[core.active], core.pool)
  }

  /** So it is between reloads, and no snapshot is cleared then. */
  ghost predicate Quiet(core: Core)
    requires Shaped(core)
  {
    Matched(core) && !core.snapshots[Next(core)].cleared
  }

  ghost predicate TenantIs(core: Core, slot: nat, text: string)
    requires slot < |core.pool|
  {
    && Tenure(slot, core.pool[slot].generation) in core.tenants
    && core.tenants[Tenure(slot, core.pool[slot].generation)] == text
  }

  ghost predicate AssigningOk(core: Core, texts: seq<string>, next: seq<Option<nat>>, cursor: nat)
    requires Shaped(core)
  {
    var active := core.lists[core.active];
    && |next| <= |texts| <= MAX_RULES && cursor <= POOL_SIZE
    && Live(active, core.pool)
    && (forall s | 0 <= s < POOL_SIZE :: core.pool[s].used <==> s in HeldSlots(active) || s in GivenSlots(next))
    && (forall s | 0 <= s < cursor :: core.pool[s].used)
    && (forall i | 0 <= i < |next| ::
          next[i].Some? && next[i].value < POOL_SIZE && TenantIs(core, next[i].value, texts[i]))
    && (forall i | 0 <= i < |next| :: WellAssigned(active, texts[..|next|], next, i))
  }

  function Texts(rules: seq<Rule>): (texts: seq<string>)
    ensures |texts| == |rules|
  {
    seq(|rules|, i requires 0 <= i < |rules| => rules[i].text)
  }

  function SlotsOf(rules: seq<Rule>): (slots: seq<Option<nat>>)
    ensures |slots| == |rules|
  {
    seq(|rules|, i requires 0 <= i < |rules| => rules[i].slot)
  }

  /** The new rules against the rules they replace: survivors keep their slots, others get new ones. */
  ghost predicate Succeeds(active: seq<Rule>, rules: seq<Rule>) {
    forall i | 0 <= i < |rules| :: WellAssigned(active, Texts(rules), SlotsOf(rules), i)
  }

  /** Departed rules' slots below `index` are one generation later; all others still match. */
  ghost predicate Outdated(active: seq<Rule>, rules: seq<Rule>, pool: seq<Slot>, index: nat) {
    forall r | r in active ::
      && r.slot.Some? && r.slot.value < |pool|
      && pool[r.slot.value].generation ==
         if r.slot.value < index && r.slot.value !in HeldSlots(rules) then r.generation + 1 else r.generation
  }

  ghost predicate ReleasingOk(core: Core, rules: seq<Rule>, index: nat)
    requires Shaped(core)
  {
    var active := core.lists[core.active];
    && |rules| <= MAX_RULES && index <= POOL_SIZE
    && Live(rules, core.pool) && TenantsOk(core.tenants, rules)
    && Succeeds(active, rules)
    && Outdated(active, rules, core.pool, index)
    && (forall s | 0 <= s < POOL_SIZE ::
          core.pool[s].used <==> s in HeldSlots(rules) || (s >= index && s in HeldSlots(active)))
  }

  ghost predicate OwnerOk(env: Env, core: Core, phase: Phase)
    requires Shaped(core)
  {
    var next := core.snapshots[Next(core)];
    match phase
    case Claimed => Quiet(core)
    case Wiping => Matched(core) && next.sequence % 2 == 1
    case Writing => Quiet(core) && next.sequence % 2 == 1
    case Restoring => Quiet(core) && next.sequence % 2 == 1
    case Assigning(texts, given, cursor) =>
      AssigningOk(core, texts, given, cursor) && next.sequence % 2 == 1 && !next.cleared
    case Clearing(texts, given, slot) =>
      && AssigningOk(core, texts, given, slot) && next.sequence % 2 == 1 && !next.cleared
      && |given| < |texts| && slot < POOL_SIZE && !core.pool[slot].used
      && FindActive(core.lists[core.active], texts[|given|]).None?
    case Attaching(rules) => ReleasingOk(core, rules, 0) && next.sequence % 2 == 1 && !next.cleared
    case Releasing(rules, index) =>
      && ReleasingOk(core, rules, index) && next.sequence % 2 == 1 && !next.cleared
      && core.lists[Next(core)] == rules && Completed(env, next, rules)
    case Swapping =>
      && ReleasingOk(core, core.lists[Next(core)], POOL_SIZE) && next.sequence % 2 == 0
    case Stamping => Quiet(core)
  }

  /** The snapshot has not been touched since the reader sampled its sequence, which was not 0. */
  ghost predicate Fresh(core: Core, snap: nat, begin: nat)
    requires snap < |core.snapshots|
  {
    begin != 0 && begin % 2 == 0 && core.snapshots[snap].sequence == begin
  }

  /** An accepted copy names a slot that was handed out, if any, and is a whole rule unless `begin` is 0. */
  ghost predicate CopyOk(env: Env, core: Core, query: nat, begin: nat, copy: Words) {
    && SlotWordOk(core, copy[SLOT_WORD])
    && (begin != 0 ==> Selected(env, core.history, query, copy))
  }

  ghost predicate ReaderOk(env: Env, core: Core, thread: Thread)
    requires Shaped(core) && WellFormed(thread)
  {
    match thread
    case Sampled(_, snap, begin) => begin <= core.snapshots[snap].sequence
    case Counted(_, snap, begin) => begin <= core.snapshots[snap].sequence
    case Scanning(query, snap, begin, count, index, key, best) =>
      var snapshot := core.snapshots[snap];
      && begin <= snapshot.sequence
      && (key != [] ==> index < count)
      && (Fresh(core, snap, begin) ==>
            && count == snapshot.count
            && best == Selection.Best(Keys(env, query, snapshot.cells)[..index])
            && (index < count ==> key == snapshot.cells[index][..|key|]))
    case Copying(query, snap, begin, from, copied) =>
      var snapshot := core.snapshots[snap];
      && begin <= snapshot.sequence
      && (|copied| > SLOT_WORD ==> SlotWordOk(core, copied[SLOT_WORD]))
      && (Fresh(core, snap, begin) ==>
            && Selection.Best(Keys(env, query, snapshot.cells)[..snapshot.count]) == Some(from)
            && copied == snapshot.cells[from][..|copied|])
    case Holding(query, begin, copy) => CopyOk(env, core, query, begin, copy)
    case Claiming(query, begin, copy) =>
      CopyOk(env, core, query, begin, copy) && copy[SLOT_WORD] != 0 && copy[GENERATION_WORD] < TWO32
    case Trying(query, begin, copy, word) =>
      && CopyOk(env, core, query, begin, copy) && copy[SLOT_WORD] != 0
      && Tag(word) == copy[GENERATION_WORD] < TWO32
      && Claims(word) < Allowance(copy[FIRST_WORD])
    case Counting(query, begin, copy) => CopyOk(env, core, query, begin, copy) && copy[SLOT_WORD] != 0
    case _ => true
  }

  ghost predicate StampsOk(thread: Thread) {
    match thread
    case Observed(observed) => observed != RELOADING
    case Loaded(observed, _) => observed != RELOADING
    case Owner(observed, previous, _) => observed != RELOADING && previous != RELOADING
    case _ => true
  }

  ghost predicate ThreadOk(env: Env, core: Core, thread: Thread)
    requires Shaped(core) && WellFormed(thread)
  {
    && StampsOk(thread)
    && ReaderOk(env, core, thread)
    && (thread.Owner? ==> core.cached == RELOADING && OwnerOk(env, core, thread.phase))
  }

  ghost predicate CoreOk(env: Env, core: Core)
    requires Shaped(core)
  {
    HistoryOk(env, core) && RulesOk(core) && ClaimsOk(env, core) && WordsOk(core)
  }

  /** At most one owner, and exactly while the cached stamp reads RELOADING. */
  ghost predicate Elected(s: State) {
    && (forall t, u | 0 <= t < |s.threads| && 0 <= u < |s.threads| && s.threads[t].Owner? && s.threads[u].Owner? :: t == u)
    && (s.core.cached == RELOADING <==> exists t :: 0 <= t < |s.threads| && s.threads[t].Owner?)
  }

  ghost predicate Inv(env: Env, s: State) {
    && AllShaped(s)
    && CoreOk(env, s.core)
    && Elected(s)
    && (s.core.cached != RELOADING ==> Quiet(s.core))
    && forall t | 0 <= t < |s.threads| :: ThreadOk(env, s.core, s.threads[t])
  }

  lemma InitInv(env: Env, s: State)
    requires Init(s)
    ensures Inv(env, s)
  {
    var core := s.core;
    assert HeldSlots([]) == {};
    forall k | 0 <= k < 2 ensures Completed(env, core.snapshots[k], core.lists[k]) && core.lists[k] in core.history {
      assert core.snapshots[k].cells[..0] == Images(env, []);
      assert core.history[0] == [];
    }
    forall i | 0 <= i < |core.pool| ensures SlotClaimsOk(core, i) {
      FreshClaimWord(core.pool[i].generation, 0);
    }
  }

  // ---- Readers -----------------------------------------------------------------------------

  /** How shared memory may move under a reader: sequences only grow, and a snapshot whose
      sequence is even and unchanged is itself unchanged; published lists stay published. */
  ghost predicate Evolves(core: Core, core': Core)
    requires Shaped(core) && Shaped(core')
  {
    && (forall k | 0 <= k < 2 ::
          && core.snapshots[k].sequence <= core'.snapshots[k].sequence
          && (core'.snapshots[k].sequence == core.snapshots[k].sequence && core.snapshots[k].sequence % 2 == 0 ==>
                core'.snapshots[k] == core.snapshots[k]))
    && core.history <= core'.history
    && forall s | 0 <= s < POOL_SIZE && Handed(core, s) :: Handed(core', s)
  }

  lemma SelectedKeeps(env: Env, core: Core, core': Core, query: nat, copy: Words)
    requires core.history <= core'.history && Selected(env, core.history, query, copy)
    ensures Selected(env, core'.history, query, copy)
  {
    hide SelectedFrom;
    var h :| 0 <= h < |core.history| && SelectedFrom(env, core.history[h], query, copy);
    assert core'.history[h] == core.history[h];
  }

  lemma SlotWordKeeps(core: Core, core': Core, word: nat)
    requires Shaped(core) && Shaped(core') && Evolves(core, core') && SlotWordOk(core, word)
    ensures SlotWordOk(core', word)
  {
    hide Handed;
  }

  lemma CopyKeeps(env: Env, core: Core, core': Core, query: nat, begin: nat, copy: Words)
    requires Shaped(core) && Shaped(core') && Evolves(core, core') && CopyOk(env, core, query, begin, copy)
    ensures CopyOk(env, core', query, begin, copy)
  {
    hide Selected, SlotWordOk;
    SlotWordKeeps(core, core', copy[SLOT_WORD]);
    if begin != 0 {
      SelectedKeeps(env, core, core', query, copy);
    }
  }

  lemma ReaderKeeps(env: Env, core: Core, core': Core, thread: Thread)
    requires Shaped(core) && Shaped(core') && WellFormed(thread) && Evolves(core, core')
    requires ReaderOk(env, core, thread)
    ensures ReaderOk(env, core', thread)
  {
    hide CopyOk, SlotWordOk, Handed, Keys, Selection.Best;
    if thread.Holding? || thread.Claiming? || thread.Trying? || thread.Counting? {
      CopyKeeps(env, core, core', thread.query, thread.begin, thread.copy);
    } else if thread.Copying? && |thread.copied| > SLOT_WORD {
      SlotWordKeeps(core, core', thread.copied[SLOT_WORD]);
    }
  }

  /** A fresh, fully copied rule is what the same lookup returns on a published list. */
  lemma AcceptedCopyIsSelected(env: Env, core: Core, thread: Thread)
    requires Shaped(core) && HistoryOk(env, core)
    requires thread.Copying? && WellFormed(thread) && ReaderOk(env, core, thread)
    requires |thread.copied| == RULE_WORDS && Fresh(core, thread.snap, thread.begin)
    ensures SelectedFrom(env, core.lists[thread.snap], thread.query, thread.copied)
    ensures Selected(env, core.history, thread.query, thread.copied)
  {
    var snapshot := core.snapshots[thread.snap];
    var rules := core.lists[thread.snap];
    assert Keys(env, thread.query, snapshot.cells)[..snapshot.count] == Keys(env, thread.query, Images(env, rules)) by {
      forall i | 0 <= i < |rules| ensures snapshot.cells[i] == Images(env, rules)[i] {
        assert snapshot.cells[..|rules|][i] == snapshot.cells[i];
      }
    }
    assert snapshot.cells[thread.from] == snapshot.cells[..|rules|][thread.from];
    var h :| 0 <= h < |core.history| && core.history[h] == rules;
    assert SelectedFrom(env, core.history[h], thread.query, thread.copied);
  }

  lemma JudgeKeeps(env: Env, core: Core, thread: Thread, a: Action, thread': Thread)
    requires Shaped(core) && a.Judge? && thread.Scanning?
    requires WellFormed(thread) && ReaderOk(env, core, thread)
    requires ReaderStep(env, core, thread, a, thread')
    ensures WellFormed(thread') && ReaderOk(env, core, thread')
  {
    var snapshot := core.snapshots[thread.snap];
    if Fresh(core, thread.snap, thread.begin) {
      var keys := Keys(env, thread.query, snapshot.cells);
      Selection.BestStep(keys, thread.index);
      assert thread.key == snapshot.cells[thread.index][..KEY_WORDS];
      if thread.best.Some? {
        var b := thread.best.value;
        assert keys[..thread.index][b] == keys[b];
        assert keys[b] == Some(snapshot.cells[b][LENGTH_WORD]);
      }
    }
  }

  lemma ScanStepKeeps(env: Env, core: Core, thread: Thread, a: Action, thread': Thread)
    requires Shaped(core)
    requires WellFormed(thread) && ReaderOk(env, core, thread)
    requires thread.Located? || thread.Sampled? || thread.Counted? || (thread.Scanning? && !a.Judge?)
    requires ReaderStep(env, core, thread, a, thread')
    ensures WellFormed(thread') && ReaderOk(env, core, thread') && StampsOk(thread') && !thread'.Owner?
  {
    hide Selected;
  }

  lemma CopyStepKeeps(env: Env, core: Core, thread: Thread, a: Action, thread': Thread)
    requires Shaped(core) && HistoryOk(env, core) && WordsOk(core)
    requires WellFormed(thread) && ReaderOk(env, core, thread)
    requires thread.Copying?
    requires ReaderStep(env, core, thread, a, thread')
    ensures WellFormed(thread') && ReaderOk(env, core, thread') && StampsOk(thread') && !thread'.Owner?
  {
    hide Selected, SlotWordOk;
    if thread'.Holding? && thread.begin != 0 {
      AcceptedCopyIsSelected(env, core, thread);
    }
    hide HistoryOk;
  }

  /** Steps of a lookup, from locating the snapshot to the accepted or discarded copy. */
  lemma LookupStepKeeps(env: Env, core: Core, thread: Thread, a: Action, thread': Thread)
    requires Shaped(core) && HistoryOk(env, core) && WordsOk(core)
    requires WellFormed(thread) && ReaderOk(env, core, thread)
    requires thread.Located? || thread.Sampled? || thread.Counted? || thread.Scanning? || thread.Copying?
    requires ReaderStep(env, core, thread, a, thread')
    ensures WellFormed(thread') && ReaderOk(env, core, thread') && StampsOk(thread') && !thread'.Owner?
  {
    hide Selected, HistoryOk, WordsOk, ReaderOk;
    if thread.Copying? {
      hide ReaderStep;
      CopyStepKeeps(env, core, thread, a, thread');
    } else if thread.Scanning? && a.Judge? {
      JudgeKeeps(env, core, thread, a, thread');
    } else {
      hide ReaderStep;
      ScanStepKeeps(env, core, thread, a, thread');
    }
  }

  /** Firing a copy, up to the CAS. */
  lemma FireStepKeeps(env: Env, core: Core, thread: Thread, a: Action, thread': Thread)
    requires Shaped(core) && Bounded(core) && (thread.Holding? || thread.Claiming?)
    requires WellFormed(thread) && ReaderOk(env, core, thread)
    requires ReaderStep(env, core, thread, a, thread')
    ensures WellFormed(thread') && ReaderOk(env, core, thread') && StampsOk(thread') && !thread'.Owner?
  {
    hide CopyOk;
  }

  lemma ReaderStepKeeps(env: Env, core: Core, thread: Thread, a: Action, thread': Thread)
    requires Shaped(core) && HistoryOk(env, core) && WordsOk(core) && Bounded(core)
    requires WellFormed(thread) && ThreadOk(env, core, thread)
    requires ReaderStep(env, core, thread, a, thread')
    ensures WellFormed(thread') && ThreadOk(env, core, thread') && !thread.Owner? && !thread'.Owner?
  {
    hide HistoryOk, WordsOk, CopyOk, SlotWordOk, Bounded;
    if thread.Located? || thread.Sampled? || thread.Counted? || thread.Scanning? || thread.Copying? {
      LookupStepKeeps(env, core, thread, a, thread');
    } else if thread.Holding? || thread.Claiming? {
      FireStepKeeps(env, core, thread, a, thread');
    } else if a.Observe? && a.stamp != MISSING {
      var hash :| a.stamp == Normalize(hash);
      NormalizeAvoidsSentinels(hash);
    }
  }

  // ---- Claims ------------------------------------------------------------------------------

  /** A copy that was accepted names a live-or-past tenure whose text fixes its `@first`. */
  lemma CopyTenure(env: Env, core: Core, query: nat, copy: Words)
    requires Shaped(core) && RulesOk(core) && Selected(env, core.history, query, copy)
    ensures 1 <= copy[SLOT_WORD] <= POOL_SIZE
    ensures TenureOf(copy) in core.tenants
    ensures copy[FIRST_WORD] == First(env, core.tenants[TenureOf(copy)])
  {
    var h :| 0 <= h < |core.history| && SelectedFrom(env, core.history[h], query, copy);
    var rules := core.history[h];
    var i := Selection.Best(Keys(env, query, Images(env, rules))).value;
    assert TenantsOk(core.tenants, rules) && rules[i] in rules;
    assert copy == Image(env, rules[i]);
  }

  /** Slots whose allocation state is untouched keep every invariant about who owns them. */
  ghost predicate SameOwnership(core: Core, core': Core)
    requires Shaped(core) && Shaped(core')
  {
    && core'.active == core.active && core'.snapshots == core.snapshots && core'.lists == core.lists
    && core'.history == core.history && core'.tenants == core.tenants
    && forall s | 0 <= s < POOL_SIZE ::
         && core'.pool[s].used == core.pool[s].used && core'.pool[s].generation == core.pool[s].generation
         && Tag(core'.pool[s].claimed) == Tag(core.pool[s].claimed)
  }

  lemma OwnershipKeeps(env: Env, core: Core, core': Core, phase: Phase)
    requires Shaped(core) && Shaped(core') && SameOwnership(core, core')
    ensures Quiet(core) ==> Quiet(core')
    ensures OwnerOk(env, core, phase) ==> OwnerOk(env, core', phase)
  {
    hide Succeeds, WellAssigned, Completed;
    if phase.Assigning? && OwnerOk(env, core, phase) {
      forall i | 0 <= i < |phase.next| ensures TenantIs(core', phase.next[i].value, phase.texts[i]) {
        assert TenantIs(core, phase.next[i].value, phase.texts[i]);
      }
    }
    if phase.Clearing? && OwnerOk(env, core, phase) {
      forall i | 0 <= i < |phase.next| ensures TenantIs(core', phase.next[i].value, phase.texts[i]) {
        assert TenantIs(core, phase.next[i].value, phase.texts[i]);
      }
    }
  }

  lemma ThreadKeeps(env: Env, core: Core, core': Core, thread: Thread)
    requires Shaped(core) && Shaped(core') && SameOwnership(core, core') && core'.cached == core.cached
    requires WellFormed(thread) && ThreadOk(env, core, thread)
    ensures ThreadOk(env, core', thread)
  {
    ReaderKeeps(env, core, core', thread);
    if thread.Owner? {
      OwnershipKeeps(env, core, core', thread.phase);
    }
  }

  /** The claim word a claimant is about to swing carries its own tenure's count. */
  lemma SwungWord(env: Env, core: Core, thread: Thread)
    requires Shaped(core) && RulesOk(core) && ClaimsOk(env, core)
    requires thread.Trying? && WellFormed(thread) && ReaderOk(env, core, thread)
    requires 1 <= thread.copy[SLOT_WORD] <= POOL_SIZE
    requires core.pool[thread.copy[SLOT_WORD] - 1].claimed == thread.word
    ensures var tenure := TenureOf(thread.copy);
            && tenure in core.tenants && Tag(thread.word) == tenure.generation
            && Wins(core.wins, tenure) == Claims(thread.word) < TWO32 - 1
            && (thread.begin != 0 ==> Claims(thread.word) + 1 <= Allowance(First(env, core.tenants[tenure])))
            && Tag(thread.word + 1) == tenure.generation && Claims(thread.word + 1) == Claims(thread.word) + 1
  {
    hide Selected, WinsOk;
    if thread.begin != 0 {
      CopyTenure(env, core, thread.query, thread.copy);
    }
    ClaimOnce(thread.word);
    assert SlotClaimsOk(core, thread.copy[SLOT_WORD] - 1);
  }

  /** A successful claim adds one win to the claimant's own tenure, within its allowance. */
  lemma SwingKeepsClaims(env: Env, core: Core, thread: Thread, a: Action, core': Core, thread': Thread)
    requires Shaped(core) && CoreOk(env, core)
    requires a.Swing? && WellFormed(thread) && ThreadOk(env, core, thread)
    requires WriterStep(core, thread, a, core', thread')
    ensures Shaped(core') && ClaimsOk(env, core')
  {
    hide HistoryOk, RulesOk, WordsOk, ReaderOk;
    var s := thread.copy[SLOT_WORD] - 1;
    if core.pool[s].claimed == thread.word {
      SwungWord(env, core, thread);
      assert core'.wins == core.wins[TenureOf(thread.copy) := Claims(thread.word) + 1];
      forall i | 0 <= i < |core'.pool| ensures SlotClaimsOk(core', i) {
        assert SlotClaimsOk(core, i);
      }
    }
  }

  /** Claims depend on the pool, the tenants and the wins alone. */
  lemma ClaimsFrame(env: Env, core: Core, core': Core)
    requires ClaimsOk(env, core)
    requires core'.pool == core.pool && core'.tenants == core.tenants && core'.wins == core.wins && core'.torn == core.torn
    ensures ClaimsOk(env, core')
  {
    forall i | 0 <= i < |core'.pool| ensures SlotClaimsOk(core', i) {
      assert SlotClaimsOk(core, i);
    }
  }

  lemma RecordKeepsClaims(env: Env, core: Core, core': Core, s: nat)
    requires Shaped(core) && ClaimsOk(env, core) && s < POOL_SIZE
    requires core' == WithSlot(core, s, core.pool[s].(count := core.pool[s].count + 1))
    ensures Shaped(core') && ClaimsOk(env, core')
  {
    forall i | 0 <= i < |core'.pool| ensures SlotClaimsOk(core', i) {
      assert SlotClaimsOk(core, i);
    }
  }

  /** Words stay in order where cells stay and slots stay handed out. */
  lemma WordsFrame(core: Core, core': Core)
    requires Shaped(core) && Shaped(core') && Evolves(core, core') && WordsOk(core)
    requires forall k | 0 <= k < 2 :: core'.snapshots[k].cells == core.snapshots[k].cells
    ensures WordsOk(core')
  {
    hide SlotWordOk, Evolves;
    forall k, i | 0 <= k < 2 && 0 <= i < MAX_RULES ensures SlotWordOk(core', core'.snapshots[k].cells[i][SLOT_WORD]) {
      SlotWordKeeps(core, core', core.snapshots[k].cells[i][SLOT_WORD]);
    }
  }

  lemma CoreKeeps(env: Env, core: Core, core': Core)
    requires Shaped(core) && Shaped(core') && SameOwnership(core, core') && CoreOk(env, core)
    requires ClaimsOk(env, core')
    ensures CoreOk(env, core')
  {
    hide SlotClaimsOk;
    WordsFrame(core, core');
  }

  /** Firing a copy: what the step does to shared memory and to the thread itself. */
  ghost predicate FireKept(env: Env, core: Core, core': Core, thread': Thread)
    requires Shaped(core)
  {
    && Shaped(core') && SameOwnership(core, core') && CoreOk(env, core') && core'.cached == core.cached
    && WellFormed(thread') && ThreadOk(env, core', thread') && !thread'.Owner?
  }

  lemma SwingKeeps(env: Env, core: Core, thread: Thread, a: Action, core': Core, thread': Thread)
    requires Shaped(core) && CoreOk(env, core) && Bounded(core) && a.Swing?
    requires WellFormed(thread) && ThreadOk(env, core, thread)
    requires WriterStep(core, thread, a, core', thread')
    ensures FireKept(env, core, core', thread')
  {
    hide HistoryOk, RulesOk, ClaimsOk, WordsOk, CopyOk;
    SwingKeepsClaims(env, core, thread, a, core', thread');
    CoreKeeps(env, core, core');
    CopyKeeps(env, core, core', thread.query, thread.begin, thread.copy);
  }

  lemma RecordKeeps(env: Env, core: Core, thread: Thread, a: Action, core': Core, thread': Thread)
    requires Shaped(core) && CoreOk(env, core) && a.Record?
    requires WellFormed(thread) && ThreadOk(env, core, thread)
    requires WriterStep(core, thread, a, core', thread')
    ensures FireKept(env, core, core', thread')
  {
    hide HistoryOk, RulesOk, ClaimsOk, WordsOk, CopyOk;
    RecordKeepsClaims(env, core, core', thread.copy[SLOT_WORD] - 1);
    CoreKeeps(env, core, core');
    CopyKeeps(env, core, core', thread.query, thread.begin, thread.copy);
  }

  /** A step that leaves ownership alone keeps the invariant if it keeps its own thread's part. */
  lemma Assemble(env: Env, s: State, t: nat, s': State)
    requires Inv(env, s) && t < |s.threads| && |s'.threads| == |s.threads|
    requires s'.threads == s.threads[t := s'.threads[t]]
    requires Shaped(s'.core) && SameOwnership(s.core, s'.core) && CoreOk(env, s'.core) && s'.core.cached == s.core.cached
    requires WellFormed(s'.threads[t]) && ThreadOk(env, s'.core, s'.threads[t])
    requires !s.threads[t].Owner? && !s'.threads[t].Owner?
    ensures Inv(env, s')
  {
    OwnershipKeeps(env, s.core, s'.core, Claimed);
    forall u | 0 <= u < |s'.threads| ensures WellFormed(s'.threads[u]) && ThreadOk(env, s'.core, s'.threads[u]) {
      if u != t {
        assert s'.threads[u] == s.threads[u];
        ThreadKeeps(env, s.core, s'.core, s.threads[u]);
      }
    }
    ElectionKeeps(s, t, s');
  }

  lemma WriterStepKeeps(env: Env, s: State, a: Action, s': State)
    requires Inv(env, s) && Bounded(s.core) && Step(env, s, a, s')
    requires WriterStep(s.core, s.threads[a.t], a, s'.core, s'.threads[a.t])
    ensures Inv(env, s')
  {
    assert WellFormed(s.threads[a.t]) && ThreadOk(env, s.core, s.threads[a.t]);
    if a.Claim? {
      ClaimKeeps(env, s, a, s');
    } else if a.Swing? {
      SwingKeeps(env, s.core, s.threads[a.t], a, s'.core, s'.threads[a.t]);
      Assemble(env, s, a.t, s');
    } else {
      RecordKeeps(env, s.core, s.threads[a.t], a, s'.core, s'.threads[a.t]);
      Assemble(env, s, a.t, s');
    }
  }

  lemma ElectionKeeps(s: State, t: nat, s': State)
    requires Elected(s) && t < |s.threads| && |s'.threads| == |s.threads|
    requires s'.threads == s.threads[t := s'.threads[t]]
    requires s'.core.cached == s.core.cached && s'.threads[t].Owner? == s.threads[t].Owner?
    ensures Elected(s')
  {
    assert forall u | 0 <= u < |s.threads| :: s'.threads[u].Owner? == s.threads[u].Owner?;
    if s.core.cached == RELOADING {
      var u :| 0 <= u < |s.threads| && s.threads[u].Owner?;
      assert s'.threads[u].Owner?;
    }
  }

  /** Winning the CAS on the stamp makes the thread the only owner. */
  lemma ClaimKeeps(env: Env, s: State, a: Action, s': State)
    requires Inv(env, s) && Step(env, s, a, s') && a.Claim?
    requires WriterStep(s.core, s.threads[a.t], a, s'.core, s'.threads[a.t])
    ensures Inv(env, s')
  {
    hide HistoryOk, RulesOk, ClaimsOk, Quiet;
    var core, core' := s.core, s'.core;
    forall t | 0 <= t < |s.threads| ensures WellFormed(s.threads[t]) && ThreadOk(env, core, s.threads[t]) {
    }
    if s'.threads[a.t].Owner? {
      assert core.cached != RELOADING;
      assert forall u | 0 <= u < |s.threads| :: !s.threads[u].Owner?;
      ClaimsFrame(env, core, core');
      CoreKeeps(env, core, core');
      OwnershipKeeps(env, core, core', Claimed);
      forall t | 0 <= t < |s'.threads| ensures WellFormed(s'.threads[t]) && ThreadOk(env, core', s'.threads[t]) {
        if t != a.t {
          ReaderKeeps(env, core, core', s.threads[t]);
        }
      }
    } else {
      ElectionKeeps(s, a.t, s');
    }
  }

  lemma PureStepKeeps(env: Env, s: State, a: Action, s': State)
    requires Inv(env, s) && Bounded(s.core) && Step(env, s, a, s')
    requires s'.core == s.core && ReaderStep(env, s.core, s.threads[a.t], a, s'.threads[a.t])
    ensures Inv(env, s')
  {
    assert WellFormed(s.threads[a.t]) && ThreadOk(env, s.core, s.threads[a.t]);
    ReaderStepKeeps(env, s.core, s.threads[a.t], a, s'.threads[a.t]);
    Assemble(env, s, a.t, s');
  }

  // ---- The owner ---------------------------------------------------------------------------

  /** What one owner step must establish about shared memory. */
  ghost predicate OwnerKeeps(env: Env, core: Core, core': Core, phase': Phase)
    requires Shaped(core)
  {
    && Shaped(core') && Evolves(core, core') && CoreOk(env, core')
    && WellFormed(Owner(UNKNOWN, UNKNOWN, phase')) && OwnerOk(env, core', phase')
  }

  /** The owner `thread` takes step `a` from a good state. */
  ghost predicate OwnerMoves(env: Env, core: Core, thread: Thread, a: Action, core': Core) {
    && Shaped(core) && CoreOk(env, core)
    && thread.Owner? && WellFormed(thread) && OwnerOk(env, core, thread.phase)
    && OwnerEnabled(env, core, thread.phase, a) && core' == OwnerApply(env, core, thread, a)
  }

  /** The rules being attached have slots that were handed out. */
  lemma AttachedHanded(env: Env, core: Core, rules: seq<Rule>, cell: nat)
    requires Shaped(core) && ClaimsOk(env, core) && ReleasingOk(core, rules, 0) && cell < |rules|
    ensures SlotWordOk(core, SlotWord(rules[cell].slot))
  {
    assert rules[cell] in rules;
    assert rules[cell].slot.value in HeldSlots(rules);
    assert SlotClaimsOk(core, rules[cell].slot.value);
  }

  lemma WriteWordKeeps(env: Env, core: Core, thread: Thread, a: Action, core': Core)
    requires OwnerMoves(env, core, thread, a, core') && a.WriteWord?
    ensures Shaped(core') && WordsOk(core')
  {
    hide HistoryOk, RulesOk, ClaimsOk, ReleasingOk;
    if thread.phase.Attaching? {
      AttachedHanded(env, core, thread.phase.rules, a.cell);
    }
    forall k, i | 0 <= k < 2 && 0 <= i < MAX_RULES ensures SlotWordOk(core', core'.snapshots[k].cells[i][SLOT_WORD]) {
      assert SlotWordOk(core, core.snapshots[k].cells[i][SLOT_WORD]);
    }
  }

  /** Writing the inactive snapshot while its sequence is odd, or making it odd, disturbs nothing else. */
  lemma InactiveWritten(env: Env, core: Core, core': Core)
    requires Shaped(core) && Shaped(core') && CoreOk(env, core)
    requires core' == core.(snapshots := core'.snapshots)
    requires core'.snapshots[core.active] == core.snapshots[core.active]
    requires var next, next' := core.snapshots[Next(core)], core'.snapshots[Next(core)];
             next'.sequence % 2 == 1 && (next'.sequence == next.sequence || next'.sequence == next.sequence + 1)
    ensures HistoryOk(env, core') && RulesOk(core') && ClaimsOk(env, core') && Evolves(core, core')
    ensures Matched(core) ==> Matched(core')
    ensures forall rules, i | ReleasingOk(core, rules, i) :: ReleasingOk(core', rules, i)
  {
    hide SlotClaimsOk, WinsOk, Completed, Live, Outdated, Succeeds, TenantsOk;
    ClaimsFrame(env, core, core');
  }

  /** Steps that only write the inactive snapshot. */
  lemma WritingKeeps(env: Env, core: Core, thread: Thread, a: Action, core': Core)
    requires OwnerMoves(env, core, thread, a, core')
    requires a.WriteBegin? || a.WipeSequence? || a.RestoreSequence? || a.WriteWord? || a.WriteCount?
    ensures OwnerKeeps(env, core, core', OwnerPhase(core, thread.phase, a)) && core'.cached == core.cached
  {
    hide WordsOk, ClaimsOk, HistoryOk, RulesOk, Evolves, Matched, ReleasingOk, AssigningOk;
    InactiveWritten(env, core, core');
    if a.WriteWord? {
      WriteWordKeeps(env, core, thread, a, core');
    } else {
      WordsFrame(core, core');
    }
  }

  /** Steps that only move the owner on. */
  lemma MovingKeeps(env: Env, core: Core, thread: Thread, a: Action, core': Core)
    requires OwnerMoves(env, core, thread, a, core')
    requires a.Abort? || a.Parsed? || a.NoSlot?
    ensures OwnerKeeps(env, core, core', OwnerPhase(core, thread.phase, a)) && core'.cached == core.cached && !a.NoSlot?
  {
    assert GivenSlots([]) == {};
    if a.NoSlot? {
      NeverOutOfSlots(core, thread.phase.texts, thread.phase.next, thread.phase.cursor);
    }
  }

  lemma AllAssignedKeeps(env: Env, core: Core, thread: Thread, a: Action, core': Core)
    requires OwnerMoves(env, core, thread, a, core')
    requires a.AllAssigned?
    ensures OwnerKeeps(env, core, core', OwnerPhase(core, thread.phase, a)) && core'.cached == core.cached
  {
    AttachingKeeps(core, thread.phase.texts, thread.phase.next, thread.phase.cursor);
  }

  /** The pool of twice the rule limit never runs out during an assignment. */
  lemma NeverOutOfSlots(core: Core, texts: seq<string>, next: seq<Option<nat>>, cursor: nat)
    requires Shaped(core) && AssigningOk(core, texts, next, cursor) && |next| < |texts|
    ensures NextFree(core.pool, cursor) < POOL_SIZE
  {
    FreeSlotRemains(core.pool, core.lists[core.active], next);
  }

  lemma AttachingKeeps(core: Core, texts: seq<string>, next: seq<Option<nat>>, cursor: nat)
    requires Shaped(core) && AssigningOk(core, texts, next, cursor) && |next| == |texts|
    ensures InPool(Attach(texts, next, core.pool), POOL_SIZE)
    ensures ReleasingOk(core, Attach(texts, next, core.pool), 0)
  {
    var rules := Attach(texts, next, core.pool);
    AttachedSlots(texts, next, core.pool);
    assert texts[..|next|] == texts;
    assert Texts(rules) == texts && SlotsOf(rules) == next;
    forall r | r in rules
      ensures r.slot.Some? && r.slot.value < POOL_SIZE && TenantIs(core, r.slot.value, r.text)
      ensures r.generation == core.pool[r.slot.value].generation
    {
      var i :| 0 <= i < |rules| && rules[i] == r;
      assert TenantIs(core, next[i].value, texts[i]);
    }
  }

  /** Adding rule |next| to an assignment that has reached it. */
  lemma AssigningGrows(core: Core, texts: seq<string>, next: seq<Option<nat>>, cursor: nat, slot: nat, core': Core, cursor': nat)
    requires Shaped(core) && Shaped(core') && AssigningOk(core, texts, next, cursor) && |next| < |texts|
    requires slot < POOL_SIZE && cursor <= cursor' <= POOL_SIZE
    requires core'.active == core.active && core'.lists == core.lists
    requires forall i | 0 <= i < POOL_SIZE :: core'.pool[i].generation == core.pool[i].generation
    requires forall i | 0 <= i < POOL_SIZE :: core'.pool[i].used == (core.pool[i].used || i == slot)
    requires forall i | 0 <= i < cursor' :: core.pool[i].used
    requires forall i | 0 <= i < |next| :: TenantIs(core', next[i].value, texts[i])
    requires TenantIs(core', slot, texts[|next|])
    requires var kept := FindActive(core.lists[core.active], texts[|next|]);
             if kept.Some? then kept == Some(slot) else !core.pool[slot].used
    ensures AssigningOk(core', texts, next + [Some(slot)], cursor')
  {
    GivenSlotsSnoc(next, slot);
    ListGrows(core.lists[core.active], texts, next, slot);
  }

  lemma ListGrows(active: seq<Rule>, texts: seq<string>, next: seq<Option<nat>>, slot: nat)
    requires |next| < |texts|
    requires forall i | 0 <= i < |next| :: WellAssigned(active, texts[..|next|], next, i)
    requires var kept := FindActive(active, texts[|next|]);
             if kept.Some? then kept == Some(slot) else slot !in HeldSlots(active) + GivenSlots(next)
    ensures var longer := next + [Some(slot)];
            forall i | 0 <= i < |longer| :: WellAssigned(active, texts[..|longer|], longer, i)
  {
    var longer := next + [Some(slot)];
    assert texts[..|longer|][..|next|] == texts[..|next|];
    assert longer[..|next|] == next;
    forall i | 0 <= i < |longer| ensures WellAssigned(active, texts[..|longer|], longer, i) {
      WellAssignedSnoc(active, texts[..|longer|], next, longer, i);
    }
  }

  lemma KeepKeeps(env: Env, core: Core, thread: Thread, a: Action, core': Core)
    requires OwnerMoves(env, core, thread, a, core')
    requires a.Keep?
    ensures OwnerKeeps(env, core, core', OwnerPhase(core, thread.phase, a)) && core'.cached == core.cached
  {
    var (texts, next) := (thread.phase.texts, thread.phase.next);
    var active := core.lists[core.active];
    var kept := FindActive(active, texts[|next|]).value;
    KeptSlotInPool(active, texts[|next|], POOL_SIZE);
    HeldActive(active, texts[|next|]);
    assert core'.pool == core.pool;
    assert core' == core;
    var i :| 0 <= i < |active| && active[i].slot == Some(kept) && active[i].text == texts[|next|];
    ActiveTenant(env, core, active[i]);
    AssigningGrows(core, texts, next, thread.phase.cursor, kept, core', thread.phase.cursor);
  }

  lemma ActiveTenant(env: Env, core: Core, r: Rule)
    requires Shaped(core) && HistoryOk(env, core) && RulesOk(core) && Live(core.lists[core.active], core.pool)
    requires r in core.lists[core.active]
    ensures r.slot.Some? && r.slot.value < POOL_SIZE && TenantIs(core, r.slot.value, r.text)
  {
    var h :| 0 <= h < |core.history| && core.history[h] == core.lists[core.active];
    assert TenantsOk(core.tenants, core.history[h]);
  }

  lemma ClearedKeeps(env: Env, core: Core, s: nat, core': Core)
    requires Shaped(core) && CoreOk(env, core) && s < POOL_SIZE
    requires core' == WithSlot(core, s, core.pool[s].(count := 0))
    ensures Shaped(core') && SameOwnership(core, core') && CoreOk(env, core')
  {
    forall i | 0 <= i < |core'.pool| ensures SlotClaimsOk(core', i) {
      assert SlotClaimsOk(core, i);
    }
    CoreKeeps(env, core, core');
  }

  lemma ClearKeeps(env: Env, core: Core, thread: Thread, a: Action, core': Core)
    requires OwnerMoves(env, core, thread, a, core')
    requires a.Clear?
    ensures OwnerKeeps(env, core, core', OwnerPhase(core, thread.phase, a)) && core'.cached == core.cached
  {
    hide HistoryOk, RulesOk, ClaimsOk;
    var phase := thread.phase;
    var free := NextFree(core.pool, phase.cursor);
    assert AssigningOk(core, phase.texts, phase.next, free) by {
      assert forall s | 0 <= s < free :: core.pool[s].used;
    }
    ClearedKeeps(env, core, free, core');
    OwnershipKeeps(env, core, core', Clearing(phase.texts, phase.next, free));
  }

  /** The tenure that handing a slot starts has neither a text nor claims yet. */
  lemma HandedClaims(env: Env, core: Core, s: nat, text: string, core': Core)
    requires Shaped(core) && Shaped(core') && ClaimsOk(env, core) && Bounded(core) && s < POOL_SIZE && !core.pool[s].used
    requires var slot := core.pool[s];
             && core'.pool == core.pool[s := slot.(claimed := ClaimsNone(slot.generation), state := 0, used := true)]
             && core'.tenants == core.tenants[Tenure(s, slot.generation) := text]
             && core'.wins == core.wins && core'.torn == core.torn
    ensures ClaimsOk(env, core') && Tenure(s, core.pool[s].generation) !in core.tenants
  {
    assert SlotClaimsOk(core, s);
    FreshClaimWord(core.pool[s].generation, 0);
    forall i | 0 <= i < |core'.pool| ensures SlotClaimsOk(core', i) {
      assert SlotClaimsOk(core, i);
    }
    forall other | other in core'.wins && core'.wins[other] > 0
      ensures other in core.tenants && core'.tenants[other] == core.tenants[other]
    {
    }
  }

  /** Handing a free slot to a text starts a tenure nobody has claimed under. */
  lemma HandKeepsCore(env: Env, core: Core, thread: Thread, a: Action, core': Core)
    requires OwnerMoves(env, core, thread, a, core') && Bounded(core)
    requires a.Hand?
    ensures Shaped(core') && Evolves(core, core') && CoreOk(env, core') && core'.cached == core.cached
    ensures Tenure(thread.phase.slot, core.pool[thread.phase.slot].generation) !in core.tenants
  {
    hide ClaimsOk, AssigningOk;
    HandedClaims(env, core, thread.phase.slot, thread.phase.texts[|thread.phase.next|], core');
    forall h | 0 <= h < |core'.history| ensures TenantsOk(core'.tenants, core'.history[h]) {
      assert TenantsOk(core.tenants, core.history[h]);
    }
  }

  lemma HandKeeps(env: Env, core: Core, thread: Thread, a: Action, core': Core)
    requires OwnerMoves(env, core, thread, a, core') && Bounded(core)
    requires a.Hand?
    ensures OwnerKeeps(env, core, core', OwnerPhase(core, thread.phase, a)) && core'.cached == core.cached
  {
    hide HistoryOk, RulesOk, ClaimsOk, Evolves;
    HandKeepsCore(env, core, thread, a, core');
    var (texts, next, s) := (thread.phase.texts, thread.phase.next, thread.phase.slot);
    forall i | 0 <= i < |next| ensures TenantIs(core', next[i].value, texts[i]) {
      assert TenantIs(core, next[i].value, texts[i]);
      assert next[i] in next;
      assert next[i].value in GivenSlots(next);
    }
    AssigningGrows(core, texts, next, s, s, core', s);
  }

  lemma AttachedKeeps(env: Env, core: Core, thread: Thread, a: Action, core': Core)
    requires OwnerMoves(env, core, thread, a, core')
    requires a.Attached?
    ensures OwnerKeeps(env, core, core', OwnerPhase(core, thread.phase, a)) && core'.cached == core.cached
  {
    hide WordsOk;
    ClaimsFrame(env, core, core');
    WordsFrame(core, core');
  }

  /** Releasing one slot: the claim words of the pool stay in order. */
  lemma ReleaseKeepsClaims(env: Env, core: Core, s: nat, held: bool, core': Core)
    requires Shaped(core) && ClaimsOk(env, core) && s < POOL_SIZE
    requires core' == WithSlot(core, s, ReleaseSlot(core.pool[s], held))
    ensures ClaimsOk(env, core')
  {
    forall i | 0 <= i < |core'.pool| ensures SlotClaimsOk(core', i) {
      assert SlotClaimsOk(core, i);
    }
  }

  /** Releasing one departed slot frees it and moves its generation on. */
  lemma ReleaseKeepsOwnership(core: Core, rules: seq<Rule>, s: nat, core': Core)
    requires Shaped(core) && ReleasingOk(core, rules, s) && s < POOL_SIZE
    requires core' == WithSlot(core, s, ReleaseSlot(core.pool[s], s in HeldSlots(rules)))
    ensures Shaped(core') && ReleasingOk(core', rules, s + 1)
  {
    var active := core.lists[core.active];
    forall r | r in rules ensures r.slot.value in HeldSlots(rules) {
      assert r.slot.Some?;
    }
    forall r | r in active ensures r.slot.Some? && r.slot.value in HeldSlots(active) {
    }
    assert Live(rules, core'.pool);
    assert Outdated(active, rules, core'.pool, s + 1);
  }

  /** Releasing a slot moves nothing a reader reads but its generation. */
  lemma ReleaseEvolves(core: Core, s: nat, held: bool, core': Core)
    requires Shaped(core) && WordsOk(core) && s < POOL_SIZE
    requires core' == WithSlot(core, s, ReleaseSlot(core.pool[s], held))
    ensures Shaped(core') && Evolves(core, core') && WordsOk(core')
  {
    WordsFrame(core, core');
  }

  lemma ReleaseKeeps(env: Env, core: Core, thread: Thread, a: Action, core': Core)
    requires OwnerMoves(env, core, thread, a, core')
    requires a.ReleaseOne?
    ensures OwnerKeeps(env, core, core', OwnerPhase(core, thread.phase, a)) && core'.cached == core.cached
  {
    hide WordsOk, Evolves, Live, TenantsOk, Outdated, Succeeds;
    var (rules, s) := (thread.phase.rules, thread.phase.index);
    ReleaseKeepsClaims(env, core, s, s in HeldSlots(rules), core');
    ReleaseKeepsOwnership(core, rules, s, core');
    ReleaseEvolves(core, s, s in HeldSlots(rules), core');
    hide ClaimsOk, ReleasingOk;
  }

  /** Making the sequence even publishes the list to readers that still hold the snapshot. */
  lemma EndedHistory(env: Env, core: Core, rules: seq<Rule>, core': Core)
    requires Shaped(core) && HistoryOk(env, core) && core.lists[Next(core)] == rules
    requires Completed(env, core.snapshots[Next(core)], rules) && core.snapshots[Next(core)].sequence % 2 == 1
    requires !core.snapshots[Next(core)].cleared
    requires var next := core.snapshots[Next(core)];
             core' == WithNext(core, next.(sequence := Even(next.sequence))).(history := core.history + [rules])
    ensures Shaped(core') && HistoryOk(env, core') && Evolves(core, core')
  {
    hide Images;
    assert core'.history[|core.history|] == rules;
    forall list | list in core.history ensures list in core'.history {
      var h :| 0 <= h < |core.history| && core.history[h] == list;
      assert core'.history[h] == list;
    }
  }

  lemma WriteEndKeeps(env: Env, core: Core, thread: Thread, a: Action, core': Core)
    requires OwnerMoves(env, core, thread, a, core')
    requires a.WriteEnd?
    ensures OwnerKeeps(env, core, core', OwnerPhase(core, thread.phase, a)) && core'.cached == core.cached
  {
    hide AssigningOk, HistoryOk, WordsOk, Completed, Evolves;
    EndedHistory(env, core, thread.phase.rules, core');
    ClaimsFrame(env, core, core');
    WordsFrame(core, core');
    hide ClaimsOk;
  }

  /** After the swap the pool is settled for the new active snapshot. */
  lemma SwapKeeps(env: Env, core: Core, thread: Thread, a: Action, core': Core)
    requires OwnerMoves(env, core, thread, a, core')
    requires a.Swap?
    ensures OwnerKeeps(env, core, core', OwnerPhase(core, thread.phase, a)) && core'.cached == core.cached
  {
    hide WordsOk;
    ClaimsFrame(env, core, core');
    WordsFrame(core, core');
  }

  lemma OwnerAssignsKeeps(env: Env, core: Core, thread: Thread, a: Action, core': Core)
    requires OwnerMoves(env, core, thread, a, core') && Bounded(core)
    requires a.Keep? || a.Clear? || a.Hand?
    ensures OwnerKeeps(env, core, core', OwnerPhase(core, thread.phase, a)) && core'.cached == core.cached
  {
    if a.Keep? {
      KeepKeeps(env, core, thread, a, core');
    } else if a.Clear? {
      ClearKeeps(env, core, thread, a, core');
    } else {
      HandKeeps(env, core, thread, a, core');
    }
  }

  lemma OwnerFinishesKeeps(env: Env, core: Core, thread: Thread, a: Action, core': Core)
    requires OwnerMoves(env, core, thread, a, core')
    requires a.Attached? || a.ReleaseOne? || a.WriteEnd? || a.Swap?
    ensures OwnerKeeps(env, core, core', OwnerPhase(core, thread.phase, a)) && core'.cached == core.cached
  {
    if a.Attached? {
      AttachedKeeps(env, core, thread, a, core');
    } else if a.ReleaseOne? {
      ReleaseKeeps(env, core, thread, a, core');
    } else if a.WriteEnd? {
      WriteEndKeeps(env, core, thread, a, core');
    } else {
      SwapKeeps(env, core, thread, a, core');
    }
  }

  /** The steps of the reload owner. */
  ghost predicate OwnerAction(a: Action) {
    || a.WriteBegin? || a.WipeSequence? || a.RestoreSequence? || a.WriteWord? || a.WriteCount? || a.Abort? || a.Parsed? || a.NoSlot? || a.AllAssigned?
    || a.Keep? || a.Clear? || a.Hand? || a.Attached? || a.ReleaseOne? || a.WriteEnd? || a.Swap?
    || a.Publish? || a.Restore?
  }

  lemma OwnersTakeOwnerActions(env: Env, core: Core, phase: Phase, a: Action)
    requires Shaped(core) && OwnerEnabled(env, core, phase, a)
    ensures OwnerAction(a)
  {
  }

  lemma OwnerStaysKeeps(env: Env, core: Core, thread: Thread, a: Action, core': Core)
    requires OwnerMoves(env, core, thread, a, core') && Bounded(core)
    requires OwnerAction(a) && !a.Publish? && !a.Restore?
    ensures OwnerKeeps(env, core, core', OwnerPhase(core, thread.phase, a)) && core'.cached == core.cached
  {
    if a.Keep? || a.Clear? || a.Hand? {
      OwnerAssignsKeeps(env, core, thread, a, core');
    } else if a.Attached? || a.ReleaseOne? || a.WriteEnd? || a.Swap? {
      OwnerFinishesKeeps(env, core, thread, a, core');
    } else if a.WriteBegin? || a.WipeSequence? || a.RestoreSequence? || a.WriteWord? || a.WriteCount? {
      WritingKeeps(env, core, thread, a, core');
    } else if a.AllAssigned? {
      AllAssignedKeeps(env, core, thread, a, core');
    } else {
      MovingKeeps(env, core, thread, a, core');
    }
  }

  /** Every other thread reads on undisturbed while memory evolves. */
  lemma OthersKeep(env: Env, s: State, t: nat, core': Core)
    requires Inv(env, s) && t < |s.threads| && s.threads[t].Owner?
    requires Shaped(core') && Evolves(s.core, core')
    ensures forall u | 0 <= u < |s.threads| && u != t ::
              WellFormed(s.threads[u]) && ThreadOk(env, core', s.threads[u]) && !s.threads[u].Owner?
  {
    forall u | 0 <= u < |s.threads| && u != t
      ensures WellFormed(s.threads[u]) && ThreadOk(env, core', s.threads[u]) && !s.threads[u].Owner?
    {
      assert WellFormed(s.threads[u]) && ThreadOk(env, s.core, s.threads[u]);
      ReaderKeeps(env, s.core, core', s.threads[u]);
    }
  }

  /** A step of the owner that stays the owner. */
  lemma OwnerStepKeeps(env: Env, s: State, a: Action, s': State)
    requires Inv(env, s) && Bounded(s.core) && Step(env, s, a, s') && !a.Publish? && !a.Restore?
    requires OwnerStep(env, s.core, s.threads[a.t], a, s'.core, s'.threads[a.t])
    ensures Inv(env, s')
  {
    hide HistoryOk, RulesOk, ClaimsOk, OwnerOk, OwnerEnabled, OwnerApply, OwnerPhase, Evolves, Elected, Quiet;
    var core, core', thread := s.core, s'.core, s.threads[a.t];
    assert WellFormed(thread) && ThreadOk(env, core, thread);
    OwnersTakeOwnerActions(env, core, thread.phase, a);
    OwnerStaysKeeps(env, core, thread, a, core');
    OthersKeep(env, s, a.t, core');
    ElectionKeeps(s, a.t, s');
  }

  /** Storing a stamp other than RELOADING ends the reload, with the pool settled. */
  lemma OwnerEndsKeeps(env: Env, s: State, a: Action, s': State)
    requires Inv(env, s) && Step(env, s, a, s') && (a.Publish? || a.Restore?)
    requires OwnerStep(env, s.core, s.threads[a.t], a, s'.core, s'.threads[a.t])
    ensures Inv(env, s')
  {
    hide HistoryOk, RulesOk, ClaimsOk, Quiet;
    assert WellFormed(s.threads[a.t]) && ThreadOk(env, s.core, s.threads[a.t]);
    ClaimsFrame(env, s.core, s'.core);
    CoreKeeps(env, s.core, s'.core);
    OwnershipKeeps(env, s.core, s'.core, Claimed);
    OthersKeep(env, s, a.t, s'.core);
  }

  lemma StepKeeps(env: Env, s: State, a: Action, s': State)
    requires Inv(env, s) && Bounded(s.core) && Step(env, s, a, s')
    ensures Inv(env, s')
  {
    var thread, thread' := s.threads[a.t], s'.threads[a.t];
    if s'.core == s.core && ReaderStep(env, s.core, thread, a, thread') {
      PureStepKeeps(env, s, a, s');
    } else if WriterStep(s.core, thread, a, s'.core, thread') {
      WriterStepKeeps(env, s, a, s');
    } else if a.Publish? || a.Restore? {
      OwnerEndsKeeps(env, s, a, s');
    } else {
      OwnerStepKeeps(env, s, a, s');
    }
  }
}
