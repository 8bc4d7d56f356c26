/**
 * The descriptor-to-path cache as a transition system.
 *
 * A direct-mapped table whose entries are guarded by a sequence word each, with invalidation
 * generations kept outside the table. Threads interleave one shared access at a time: stores
 * write an entry field by field and byte by byte, lookups read it the same way, invalidations
 * bump a generation, and resolutions ask the kernel for the descriptor's name between sampling
 * the generation and storing the answer. The kernel may answer anything at any time.
 */
module FdCache {
  const SLOTS: nat := 32
  const MAX_PATH: nat := 4096

  type Path = seq<nat>

  function SlotOf(fd: nat): nat {
    fd % SLOTS
  }

  /** One entry of the mapped table; fresh pages are all zero, so `fdPlusOne == 0` is empty. */
  datatype Entry = Entry(sequence: nat, generation: nat, fdPlusOne: nat, bytes: seq<nat>)

  /** A completed store: the descriptor, the whole path and the generation sampled for it. */
  datatype Stored = Stored(fd: nat, path: Path, generation: nat, fromKernel: bool)

  /** A kernel answer: it named `fd` `path` while the slot's generation was `generation`. */
  datatype Answer = Answer(fd: nat, path: Path, generation: nat)

  /** `completed` and `answers` only record what happened. */
  datatype Core = Core(
    mapped: bool,
    entries: seq<Entry>,
    generations: seq<nat>,
    completed: set<Stored>,
    answers: set<Answer>)

  datatype Thread =
    | Idle
    // resolve and store
    | Sampled(fd: nat, generation: nat)
    | Named(fd: nat, path: Path, generation: nat, fromKernel: bool)
    | Seen(fd: nat, path: Path, generation: nat, fromKernel: bool, sequence: nat)
    | Filling(fd: nat, path: Path, generation: nat, fromKernel: bool, sequence: nat, done: nat)
    // lookup
    | Started(fd: nat, size: nat, sequence: nat)
    | Matched(fd: nat, size: nat, sequence: nat)
    | Measuring(fd: nat, size: nat, sequence: nat, generation: nat, length: nat)
    | Reading(fd: nat, size: nat, sequence: nat, generation: nat, length: nat, buffer: Path)
    | Checked(fd: nat, size: nat, generation: nat, buffer: Path)
    | Hit(fd: nat, size: nat, buffer: Path)

  datatype State = State(core: Core, threads: seq<Thread>)

  /** Each action is one step of the thread `t`; the kernel and the application choose the data. */
  datatype Action =
    | Invalidate(t: nat, slot: nat)
    | SampleGeneration(t: nat, fd: nat)
    | ReadLink(t: nat, path: Path)
    | CallerPath(t: nat, path: Path)
    | LoadSequence(t: nat)
    | TakeSlot(t: nat)
    | Fill(t: nat)
    | Release(t: nat)
    | StartLookup(t: nat, fd: nat, size: nat)
    | TestDescriptor(t: nat)
    | LoadGeneration(t: nat)
    | Measure(t: nat)
    | ReadByte(t: nat)
    | CheckSequence(t: nat)
    | CheckGeneration(t: nat)
    | Leave(t: nat)

  /** A path as C text: no zero byte, and not one the library excludes. */
  ghost predicate Storable(excluded: Path -> bool, path: Path) {
    0 < |path| < MAX_PATH && 0 !in path && !excluded(path)
  }

  ghost predicate Shaped(core: Core) {
    && |core.entries| == SLOTS && |core.generations| == SLOTS
    && forall k | 0 <= k < SLOTS :: |core.entries[k].bytes| == MAX_PATH
  }

  /** Stores that must happen in order: descriptor, generation, then the bytes and their NUL. */
  function FillStep(entry: Entry, thread: Thread): Entry
    requires thread.Filling? && thread.done <= |thread.path| + 2 && |thread.path| < |entry.bytes|
  {
    if thread.done == 0 then entry.(fdPlusOne := thread.fd + 1)
    else if thread.done == 1 then entry.(generation := thread.generation)
    else
      var i := thread.done - 2;
      entry.(bytes := entry.bytes[i := if i < |thread.path| then thread.path[i] else 0])
  }

  /** Steps that change the acting thread alone, from at most one load of shared memory. */
  ghost predicate LocalStep(excluded: Path -> bool, core: Core, thread: Thread, a: Action, thread': Thread)
    requires Shaped(core)
  {
    match (a, thread)
    case (SampleGeneration(_, fd), Idle) => thread' == Sampled(fd, core.generations[SlotOf(fd)])
    case (CallerPath(_, path), Sampled(fd, generation)) =>
      thread' == if Storable(excluded, path) then Named(fd, path, generation, false) else Idle
    case (StartLookup(_, fd, size), Idle) =>
      var sequence := core.entries[SlotOf(fd)].sequence;
      && size > 0
      && thread' == if !core.mapped || sequence % 2 == 1 then Idle else Started(fd, size, sequence)
    case (TestDescriptor(_), Started(fd, size, sequence)) =>
      thread' == if core.entries[SlotOf(fd)].fdPlusOne != fd + 1 then Idle else Matched(fd, size, sequence)
    case (LoadGeneration(_), Matched(fd, size, sequence)) =>
      thread' == Measuring(fd, size, sequence, core.entries[SlotOf(fd)].generation, 0)
    case (Measure(_), Measuring(fd, size, sequence, generation, length)) =>
      && length <= MAX_PATH
      && thread' == if length < MAX_PATH && core.entries[SlotOf(fd)].bytes[length] != 0
                    then Measuring(fd, size, sequence, generation, length + 1)
                    else if length + 1 > size then Idle
                    else Reading(fd, size, sequence, generation, length, [])
    case (ReadByte(_), Reading(fd, size, sequence, generation, length, buffer)) =>
      && |buffer| < length <= MAX_PATH
      && thread' == Reading(fd, size, sequence, generation, length, buffer + [core.entries[SlotOf(fd)].bytes[|buffer|]])
    case (CheckSequence(_), Reading(fd, size, sequence, generation, length, buffer)) =>
      && |buffer| == length
      && thread' == if core.entries[SlotOf(fd)].sequence != sequence then Idle else Checked(fd, size, generation, buffer)
    case (CheckGeneration(_), Checked(fd, size, generation, buffer)) =>
      thread' == if generation != core.generations[SlotOf(fd)] then Idle else Hit(fd, size, buffer)
    case (Leave(_), Filling(_, _, _, _, _, _)) => false
    case (Leave(_), _) => thread' == Idle
    case _ => false
  }

  /** Steps that change shared memory, or the record of the kernel's answers. */
  ghost predicate SharedStep(excluded: Path -> bool, core: Core, thread: Thread, a: Action, core': Core, thread': Thread)
    requires Shaped(core)
  {
    match (a, thread)
    case (Invalidate(_, slot), _) =>
      && slot < SLOTS && thread' == thread
      && core' == core.(generations := core.generations[slot := core.generations[slot] + 1])
    case (ReadLink(_, path), Sampled(fd, generation)) =>
      && core' == core.(answers := core.answers + {Answer(fd, path, core.generations[SlotOf(fd)])})
      && thread' == if Storable(excluded, path) then Named(fd, path, generation, true) else Idle
    case (LoadSequence(_), Named(fd, path, generation, fromKernel)) =>
      var sequence := core.entries[SlotOf(fd)].sequence;
      && core' == core.(mapped := true)
      && thread' == if sequence % 2 == 1 then Idle else Seen(fd, path, generation, fromKernel, sequence)
    case (TakeSlot(_), Seen(fd, path, generation, fromKernel, sequence)) =>
      var k := SlotOf(fd);
      if core.entries[k].sequence == sequence
      then
        && core' == core.(entries := core.entries[k := core.entries[k].(sequence := sequence + 1)])
        && thread' == Filling(fd, path, generation, fromKernel, sequence, 0)
      else core' == core && thread' == Idle
    case (Fill(_), Filling(fd, path, generation, fromKernel, sequence, done)) =>
      var k := SlotOf(fd);
      && done <= |path| + 2 && |path| < MAX_PATH
      && core' == core.(entries := core.entries[k := FillStep(core.entries[k], thread)])
      && thread' == thread.(done := done + 1)
    case (Release(_), Filling(fd, path, generation, fromKernel, sequence, done)) =>
      var k := SlotOf(fd);
      && done == |path| + 3
      && core' == core.(entries := core.entries[k := core.entries[k].(sequence := sequence + 2)],
                        completed := core.completed + {Stored(fd, path, generation, fromKernel)})
      && thread' == Idle
    case _ => false
  }

  ghost predicate Step(excluded: Path -> bool, s: State, a: Action, s': State) {
    && Shaped(s.core)
    && a.t < |s.threads| == |s'.threads|
    && s'.threads == s.threads[a.t := s'.threads[a.t]]
    && ( || (s'.core == s.core && LocalStep(excluded, s.core, s.threads[a.t], a, s'.threads[a.t]))
         || SharedStep(excluded, s.core, s.threads[a.t], a, s'.core, s'.threads[a.t]))
  }

  ghost predicate Init(s: State) {
    && Shaped(s.core) && !s.core.mapped
    && (forall k | 0 <= k < SLOTS :: s.core.entries[k].sequence == 0 && s.core.entries[k].fdPlusOne == 0)
    && s.core.completed == {} && s.core.answers == {}
    && forall t | 0 <= t < |s.threads| :: s.threads[t] == Idle
  }

  // ---- The invariant -----------------------------------------------------------------------

  /** The entry holds the whole of the store `stored`. */
  ghost predicate Holds(entry: Entry, stored: Stored) {
    && entry.fdPlusOne == stored.fd + 1 && entry.generation == stored.generation
    && |stored.path| < |entry.bytes|
    && entry.bytes[..|stored.path|] == stored.path
    && entry.bytes[|stored.path|] == 0
  }

  /** A store never runs ahead of its slot's generation, and a kernel's path is an answer the
      kernel gave no earlier than the store's generation. */
  ghost predicate StoredOk(excluded: Path -> bool, core: Core, stored: Stored)
    requires |core.generations| == SLOTS
  {
    && Storable(excluded, stored.path)
    && stored.generation <= core.generations[SlotOf(stored.fd)]
    && (stored.fromKernel ==>
          exists g: nat :: stored.generation <= g <= core.generations[SlotOf(stored.fd)] &&
                           Answer(stored.fd, stored.path, g) in core.answers)
  }

  /** An even entry is empty or holds one completed store of a descriptor of this slot. */
  ghost predicate EntryOk(core: Core, k: nat)
    requires k < |core.entries|
  {
    var entry := core.entries[k];
    entry.sequence % 2 == 0 && entry.fdPlusOne != 0 ==>
      exists stored :: stored in core.completed && SlotOf(stored.fd) == k && Holds(entry, stored)
  }

  ghost predicate CoreOk(excluded: Path -> bool, core: Core) {
    && Shaped(core)
    && (forall stored | stored in core.completed :: StoredOk(excluded, core, stored))
    && (forall k | 0 <= k < SLOTS :: EntryOk(core, k))
  }

  /** The entry so far, while a store fills it. */
  ghost predicate Filled(entry: Entry, thread: Thread)
    requires thread.Filling?
  {
    && entry.sequence == thread.sequence + 1 && entry.sequence % 2 == 1
    && thread.done <= |thread.path| + 3 && |thread.path| < |entry.bytes|
    && (thread.done > 0 ==> entry.fdPlusOne == thread.fd + 1)
    && (thread.done > 1 ==> entry.generation == thread.generation)
    && (forall i | 0 <= i < thread.done - 2 :: entry.bytes[i] == if i < |thread.path| then thread.path[i] else 0)
  }

  ghost predicate LookupOk(core: Core, thread: Thread)
    requires Shaped(core)
  {
    match thread
    case Started(fd, size, sequence) => sequence % 2 == 0 && sequence <= core.entries[SlotOf(fd)].sequence
    case Matched(fd, size, sequence) =>
      var entry := core.entries[SlotOf(fd)];
      && sequence % 2 == 0 && sequence <= entry.sequence
      && (entry.sequence == sequence ==> entry.fdPlusOne == fd + 1)
    case Measuring(fd, size, sequence, generation, length) =>
      var entry := core.entries[SlotOf(fd)];
      && sequence % 2 == 0 && sequence <= entry.sequence && length <= MAX_PATH
      && (entry.sequence == sequence ==>
            && entry.fdPlusOne == fd + 1 && entry.generation == generation
            && 0 !in entry.bytes[..length])
    case Reading(fd, size, sequence, generation, length, buffer) =>
      var entry := core.entries[SlotOf(fd)];
      && sequence % 2 == 0 && sequence <= entry.sequence
      && |buffer| <= length <= MAX_PATH && length < size
      && (entry.sequence == sequence ==>
            && entry.fdPlusOne == fd + 1 && entry.generation == generation
            && 0 !in entry.bytes[..length] && (length < MAX_PATH ==> entry.bytes[length] == 0)
            && buffer == entry.bytes[..|buffer|])
    case Checked(fd, size, generation, buffer) =>
      && |buffer| < size
      && exists fromKernel :: Stored(fd, buffer, generation, fromKernel) in core.completed
    case Hit(fd, size, buffer) =>
      && |buffer| < size
      && exists stored :: stored in core.completed && stored.fd == fd && stored.path == buffer
    case _ => true
  }

  ghost predicate StoreOk(excluded: Path -> bool, core: Core, thread: Thread)
    requires Shaped(core)
  {
    match thread
    case Sampled(fd, generation) => generation <= core.generations[SlotOf(fd)]
    case Named(fd, path, generation, fromKernel) =>
      StoredOk(excluded, core, Stored(fd, path, generation, fromKernel))
    case Seen(fd, path, generation, fromKernel, sequence) =>
      sequence % 2 == 0 && StoredOk(excluded, core, Stored(fd, path, generation, fromKernel))
    case Filling(fd, path, generation, fromKernel, sequence, done) =>
      && StoredOk(excluded, core, Stored(fd, path, generation, fromKernel))
      && Filled(core.entries[SlotOf(fd)], thread)
    case _ => true
  }

  ghost predicate ThreadOk(excluded: Path -> bool, core: Core, thread: Thread)
    requires Shaped(core)
  {
    LookupOk(core, thread) && StoreOk(excluded, core, thread)
  }

  /** At most one store fills a slot. */
  ghost predicate OneFiller(threads: seq<Thread>) {
    forall t, u | 0 <= t < |threads| && 0 <= u < |threads| && threads[t].Filling? && threads[u].Filling? &&
                  SlotOf(threads[t].fd) == SlotOf(threads[u].fd) :: t == u
  }

  ghost predicate Inv(excluded: Path -> bool, s: State) {
    && CoreOk(excluded, s.core)
    && OneFiller(s.threads)
    && forall t | 0 <= t < |s.threads| :: ThreadOk(excluded, s.core, s.threads[t])
  }

  lemma InitInv(excluded: Path -> bool, s: State)
    requires Init(s)
    ensures Inv(excluded, s)
  {
  }

  /** How shared memory moves under a thread that did not move it. */
  ghost predicate Evolves(core: Core, core': Core) {
    && Shaped(core) && Shaped(core')
    && core.completed <= core'.completed && core.answers <= core'.answers
    && (forall k | 0 <= k < SLOTS ::
          && core.generations[k] <= core'.generations[k]
          && core.entries[k].sequence <= core'.entries[k].sequence
          && (core'.entries[k].sequence == core.entries[k].sequence && core.entries[k].sequence % 2 == 0 ==>
                core'.entries[k] == core.entries[k]))
  }

  lemma LookupKeeps(core: Core, core': Core, thread: Thread)
    requires Evolves(core, core') && LookupOk(core, thread)
    ensures LookupOk(core', thread)
  {
    match thread
    case Checked(fd, size, generation, buffer) =>
      var fromKernel :| Stored(fd, buffer, generation, fromKernel) in core.completed;
      assert Stored(fd, buffer, generation, fromKernel) in core'.completed;
    case Hit(fd, size, buffer) =>
      var stored :| stored in core.completed && stored.fd == fd && stored.path == buffer;
      assert stored in core'.completed;
    case _ =>
  }

  lemma StoredKeeps(excluded: Path -> bool, core: Core, core': Core, stored: Stored)
    requires Evolves(core, core') && StoredOk(excluded, core, stored)
    ensures StoredOk(excluded, core', stored)
  {
    if stored.fromKernel {
      var g: nat :| stored.generation <= g <= core.generations[SlotOf(stored.fd)] && Answer(stored.fd, stored.path, g) in core.answers;
      assert Answer(stored.fd, stored.path, g) in core'.answers;
    }
  }

  /** A store in progress keeps its part while others move: nobody else writes its slot. */
  lemma StoreKeeps(excluded: Path -> bool, core: Core, core': Core, thread: Thread)
    requires Evolves(core, core') && StoreOk(excluded, core, thread)
    requires thread.Filling? ==> core'.entries[SlotOf(thread.fd)] == core.entries[SlotOf(thread.fd)]
    ensures StoreOk(excluded, core', thread)
  {
    if thread.Named? || thread.Seen? || thread.Filling? {
      StoredKeeps(excluded, core, core', Stored(thread.fd, thread.path, thread.generation, thread.fromKernel));
    }
  }

  /** The bytes up to the first zero are determined by the entry's contents. */
  lemma FirstZero(entry: Entry, stored: Stored, length: nat)
    requires Holds(entry, stored) && 0 !in stored.path
    requires length <= |entry.bytes| && 0 !in entry.bytes[..length]
    requires length < |entry.bytes| ==> entry.bytes[length] == 0
    ensures length == |stored.path| && entry.bytes[..length] == stored.path
  {
    forall i | 0 <= i < |stored.path| ensures entry.bytes[i] != 0 {
      assert entry.bytes[..|stored.path|][i] in stored.path;
    }
    forall i | 0 <= i < length ensures entry.bytes[i] != 0 {
      assert entry.bytes[..length][i] in entry.bytes[..length];
    }
  }

  /** What a reader measured and read under an unchanged sequence is one completed store. */
  lemma UnchangedIsStored(excluded: Path -> bool, core: Core, thread: Thread)
    requires CoreOk(excluded, core) && thread.Reading? && LookupOk(core, thread)
    requires |thread.buffer| == thread.length && core.entries[SlotOf(thread.fd)].sequence == thread.sequence
    ensures exists fromKernel :: Stored(thread.fd, thread.buffer, thread.generation, fromKernel) in core.completed
  {
    var k := SlotOf(thread.fd);
    assert EntryOk(core, k);
    var stored :| stored in core.completed && SlotOf(stored.fd) == k && Holds(core.entries[k], stored);
    assert StoredOk(excluded, core, stored);
    FirstZero(core.entries[k], stored, thread.length);
    assert stored == Stored(thread.fd, thread.buffer, thread.generation, stored.fromKernel);
  }

  lemma LocalStepKeeps(excluded: Path -> bool, core: Core, thread: Thread, a: Action, thread': Thread)
    requires CoreOk(excluded, core) && ThreadOk(excluded, core, thread)
    requires LocalStep(excluded, core, thread, a, thread')
    ensures ThreadOk(excluded, core, thread') && !thread.Filling? && !thread'.Filling?
  {
    hide EntryOk;
    match a
    case Measure(_) =>
      var bytes := core.entries[SlotOf(thread.fd)].bytes;
      if thread'.Measuring? {
        assert bytes[..thread.length + 1] == bytes[..thread.length] + [bytes[thread.length]];
      }
    case CheckSequence(_) =>
      if thread'.Checked? {
        UnchangedIsStored(excluded, core, thread);
      }
    case CheckGeneration(_) =>
    case _ =>
  }

  /** A finished fill leaves the entry holding exactly its store. */
  lemma FilledHolds(entry: Entry, thread: Thread)
    requires thread.Filling? && Filled(entry, thread) && thread.done == |thread.path| + 3
    ensures Holds(entry, Stored(thread.fd, thread.path, thread.generation, thread.fromKernel))
  {
    assert entry.bytes[|thread.path|] == 0;
    assert entry.bytes[..|thread.path|] == thread.path;
  }

  /** A step changes an entry only while its thread fills it, or to start filling an even one. */
  ghost predicate TouchesOwnEntry(core: Core, thread: Thread, core': Core, thread': Thread)
    requires Shaped(core) && Shaped(core')
  {
    forall k | 0 <= k < SLOTS && core'.entries[k] != core.entries[k] ::
      && (thread.Filling? || thread'.Filling?)
      && k == SlotOf(if thread.Filling? then thread.fd else thread'.fd)
      && (!thread.Filling? ==> core.entries[k].sequence % 2 == 0)
  }

  lemma SharedStepEvolves(excluded: Path -> bool, core: Core, thread: Thread, a: Action, core': Core, thread': Thread)
    requires Shaped(core) && ThreadOk(excluded, core, thread)
    requires SharedStep(excluded, core, thread, a, core', thread')
    ensures Evolves(core, core') && TouchesOwnEntry(core, thread, core', thread')
  {
  }

  lemma SharedStepKeepsThread(excluded: Path -> bool, core: Core, thread: Thread, a: Action, core': Core, thread': Thread)
    requires Evolves(core, core') && ThreadOk(excluded, core, thread)
    requires SharedStep(excluded, core, thread, a, core', thread')
    ensures ThreadOk(excluded, core', thread')
  {
    LookupKeeps(core, core', thread);
    if a.Invalidate? {
      StoreKeeps(excluded, core, core', thread);
    } else if a.ReadLink? {
      assert Answer(thread.fd, a.path, core.generations[SlotOf(thread.fd)]) in core'.answers;
    } else {
      StoredKeeps(excluded, core, core', Stored(thread.fd, thread.path, thread.generation, thread.fromKernel));
    }
  }

  lemma SharedStepKeepsCore(excluded: Path -> bool, core: Core, thread: Thread, a: Action, core': Core, thread': Thread)
    requires CoreOk(excluded, core) && ThreadOk(excluded, core, thread) && Evolves(core, core')
    requires SharedStep(excluded, core, thread, a, core', thread')
    ensures CoreOk(excluded, core')
  {
    forall stored | stored in core.completed ensures StoredOk(excluded, core', stored) {
      StoredKeeps(excluded, core, core', stored);
    }
    if a.Release? {
      StoredKeeps(excluded, core, core', Stored(thread.fd, thread.path, thread.generation, thread.fromKernel));
      FilledHolds(core.entries[SlotOf(thread.fd)], thread);
    }
    forall k | 0 <= k < SLOTS ensures EntryOk(core', k) {
      UntouchedEntryOk(core, core', k);
    }
  }

  lemma UntouchedEntryOk(core: Core, core': Core, k: nat)
    requires k < |core.entries| == |core'.entries| && core.completed <= core'.completed && EntryOk(core, k)
    ensures core'.entries[k] == core.entries[k] ==> EntryOk(core', k)
  {
    if core.entries[k].sequence % 2 == 0 && core.entries[k].fdPlusOne != 0 {
      var stored :| stored in core.completed && SlotOf(stored.fd) == k && Holds(core.entries[k], stored);
      assert stored in core'.completed;
    }
  }

  lemma OthersKeep(excluded: Path -> bool, s: State, a: Action, s': State, t: nat)
    requires Inv(excluded, s) && a.t < |s.threads| && t < |s.threads| && t != a.t
    requires |s'.threads| == |s.threads| && Evolves(s.core, s'.core)
    requires SharedStep(excluded, s.core, s.threads[a.t], a, s'.core, s'.threads[a.t])
    requires TouchesOwnEntry(s.core, s.threads[a.t], s'.core, s'.threads[a.t])
    ensures ThreadOk(excluded, s'.core, s.threads[t])
  {
    assert ThreadOk(excluded, s.core, s.threads[t]);
    LookupKeeps(s.core, s'.core, s.threads[t]);
    StoreKeeps(excluded, s.core, s'.core, s.threads[t]);
  }

  /** A store that takes a slot finds no other filling it. */
  lemma FillersStayApart(excluded: Path -> bool, s: State, a: Action, s': State)
    requires Inv(excluded, s) && Step(excluded, s, a, s')
    ensures OneFiller(s'.threads)
  {
    var thread, thread' := s.threads[a.t], s'.threads[a.t];
    forall u | 0 <= u < |s.threads| && u != a.t && s.threads[u].Filling? && thread'.Filling?
      ensures SlotOf(s.threads[u].fd) != SlotOf(thread'.fd)
    {
      assert ThreadOk(excluded, s.core, s.threads[u]) && ThreadOk(excluded, s.core, thread);
    }
  }

  lemma StepKeeps(excluded: Path -> bool, s: State, a: Action, s': State)
    requires Inv(excluded, s) && Step(excluded, s, a, s')
    ensures Inv(excluded, s')
  {
    var thread, thread' := s.threads[a.t], s'.threads[a.t];
    assert ThreadOk(excluded, s.core, thread);
    FillersStayApart(excluded, s, a, s');
    if s'.core == s.core && LocalStep(excluded, s.core, thread, a, thread') {
      LocalStepKeeps(excluded, s.core, thread, a, thread');
    } else {
      SharedStepEvolves(excluded, s.core, thread, a, s'.core, thread');
      SharedStepKeepsThread(excluded, s.core, thread, a, s'.core, thread');
      SharedStepKeepsCore(excluded, s.core, thread, a, s'.core, thread');
      forall t | 0 <= t < |s.threads| && t != a.t ensures ThreadOk(excluded, s'.core, s'.threads[t]) {
        OthersKeep(excluded, s, a, s', t);
      }
    }
  }

  // ---- Theorems ----------------------------------------------------------------------------

  datatype Run = Run(states: seq<State>, actions: seq<Action>)

  ghost predicate Moves(excluded: Path -> bool, run: Run, i: nat)
    requires |run.states| == |run.actions| + 1 && i < |run.actions|
  {
    Step(excluded, run.states[i], run.actions[i], run.states[i + 1])
  }

  ghost predicate IsRun(excluded: Path -> bool, run: Run) {
    && |run.states| == |run.actions| + 1
    && Init(run.states[0])
    && forall i | 0 <= i < |run.actions| :: Moves(excluded, run, i)
  }

  lemma {:induction false} RunKeepsInv(excluded: Path -> bool, run: Run, i: nat)
    requires IsRun(excluded, run) && i < |run.states|
    ensures Inv(excluded, run.states[i])
  {
    if i == 0 {
      InitInv(excluded, run.states[0]);
    } else {
      RunKeepsInv(excluded, run, i - 1);
      assert Moves(excluded, run, i - 1);
      StepKeeps(excluded, run.states[i - 1], run.actions[i - 1], run.states[i]);
    }
  }

  /**
   * A lookup that hits returns the whole path of one completed store for the same descriptor,
   * sampled after the slot's latest invalidation; if a resolution stored it, the kernel gave
   * that very name for that descriptor at the current generation, so since that invalidation.
   */
  lemma HitIsCurrent(excluded: Path -> bool, run: Run, i: nat) returns (stored: Stored)
    requires IsRun(excluded, run) && i < |run.actions| && run.actions[i].CheckGeneration?
    requires var t := run.actions[i].t; t < |run.states[i + 1].threads| && run.states[i + 1].threads[t].Hit?
    ensures var core, hit := run.states[i + 1].core, run.states[i + 1].threads[run.actions[i].t];
            && |core.generations| == SLOTS
            && stored in core.completed
            && stored.fd == hit.fd && stored.path == hit.buffer
            && stored.generation == core.generations[SlotOf(hit.fd)]
            && (stored.fromKernel ==> Answer(hit.fd, hit.buffer, core.generations[SlotOf(hit.fd)]) in core.answers)
            && !excluded(hit.buffer)
  {
    RunKeepsInv(excluded, run, i);
    assert Moves(excluded, run, i);
    var core, thread := run.states[i].core, run.states[i].threads[run.actions[i].t];
    assert ThreadOk(excluded, core, thread);
    var fromKernel :| Stored(thread.fd, thread.buffer, thread.generation, fromKernel) in core.completed;
    stored := Stored(thread.fd, thread.buffer, thread.generation, fromKernel);
    assert StoredOk(excluded, core, stored);
  }

  /** No lookup, however torn, writes past the caller's buffer: path and NUL fit its size. */
  lemma LookupStaysInBuffer(excluded: Path -> bool, run: Run, i: nat, t: nat)
    requires IsRun(excluded, run) && i < |run.states| && t < |run.states[i].threads|
    requires var thread := run.states[i].threads[t]; thread.Reading? || thread.Checked? || thread.Hit?
    ensures |run.states[i].threads[t].buffer| + 1 <= run.states[i].threads[t].size
  {
    RunKeepsInv(excluded, run, i);
    assert ThreadOk(excluded, run.states[i].core, run.states[i].threads[t]);
  }

  /** Two stores never fill one slot at the same time. */
  lemma OneWriterPerSlot(excluded: Path -> bool, run: Run, i: nat, t: nat, u: nat)
    requires IsRun(excluded, run) && i < |run.states|
    requires t < |run.states[i].threads| && u < |run.states[i].threads|
    requires run.states[i].threads[t].Filling? && run.states[i].threads[u].Filling?
    requires SlotOf(run.states[i].threads[t].fd) == SlotOf(run.states[i].threads[u].fd)
    ensures t == u
  {
    RunKeepsInv(excluded, run, i);
  }

  // ---- Nothing outlives an invalidation ------------------------------------------------------

  /** Step j sampled the generation of the descriptor's slot, or was the kernel's answer, and it was this one. */
  ghost predicate AskedAt(run: Run, j: nat, fd: nat, generation: nat)
    requires |run.states| == |run.actions| + 1 && j < |run.actions|
  {
    && (run.actions[j].SampleGeneration? && run.actions[j].fd == fd)
    && |run.states[j].core.generations| == SLOTS && run.states[j].core.generations[SlotOf(fd)] == generation
  }

  ghost predicate AskedBefore(run: Run, n: nat, fd: nat, generation: nat)
    requires |run.states| == |run.actions| + 1 && n <= |run.actions|
  {
    exists j :: 0 <= j < n && AskedAt(run, j, fd, generation)
  }

  predicate Storing(thread: Thread) {
    thread.Sampled? || thread.Named? || thread.Seen? || thread.Filling?
  }

  /** Whatever is being stored, or was, began with such a sample. */
  ghost predicate AllAsked(run: Run, n: nat)
    requires |run.states| == |run.actions| + 1 && n <= |run.actions|
  {
    && (forall stored | stored in run.states[n].core.completed :: AskedBefore(run, n, stored.fd, stored.generation))
    && forall t | 0 <= t < |run.states[n].threads| && Storing(run.states[n].threads[t]) ::
         AskedBefore(run, n, run.states[n].threads[t].fd, run.states[n].threads[t].generation)
  }

  lemma OwnStepAsks(excluded: Path -> bool, core: Core, thread: Thread, a: Action, core': Core, thread': Thread)
    requires Shaped(core)
    requires (core' == core && LocalStep(excluded, core, thread, a, thread')) || SharedStep(excluded, core, thread, a, core', thread')
    ensures Storing(thread') ==>
              if a.SampleGeneration? then thread'.fd == a.fd && thread'.generation == core.generations[SlotOf(a.fd)]
              else Storing(thread) && thread'.fd == thread.fd && thread'.generation == thread.generation
    ensures forall stored | stored in core'.completed ::
              stored in core.completed || (Storing(thread) && stored.fd == thread.fd && stored.generation == thread.generation)
  {
    hide FillStep, Storable;
  }

  lemma StepAsks(excluded: Path -> bool, run: Run, i: nat)
    requires IsRun(excluded, run) && i < |run.actions| && AllAsked(run, i)
    ensures AllAsked(run, i + 1)
  {
    hide Init, LocalStep, SharedStep;
    assert Moves(excluded, run, i);
    hide Moves;
    var s, a, s' := run.states[i], run.actions[i], run.states[i + 1];
    OwnStepAsks(excluded, s.core, s.threads[a.t], a, s'.core, s'.threads[a.t]);
    if a.SampleGeneration? {
      assert AskedAt(run, i, a.fd, s.core.generations[SlotOf(a.fd)]);
    }
    forall fd, generation | AskedBefore(run, i, fd, generation) ensures AskedBefore(run, i + 1, fd, generation) {
    }
  }

  lemma {:induction false} RunAsks(excluded: Path -> bool, run: Run, n: nat)
    requires IsRun(excluded, run) && n <= |run.actions|
    ensures AllAsked(run, n)
  {
    if n > 0 {
      hide Init, Moves, AllAsked;
      RunAsks(excluded, run, n - 1);
      StepAsks(excluded, run, n - 1);
    }
  }

  /** Invalidations of a slot among the first n steps. */
  ghost function Invalidations(run: Run, slot: nat, n: nat): nat
    requires n <= |run.actions|
  {
    if n == 0 then 0
    else Invalidations(run, slot, n - 1) +
         if run.actions[n - 1].Invalidate? && run.actions[n - 1].slot == slot then 1 else 0
  }

  /** A slot's generation counts its invalidations. */
  lemma {:induction false} GenerationsCountInvalidations(excluded: Path -> bool, run: Run, slot: nat, n: nat)
    requires IsRun(excluded, run) && n <= |run.actions| && slot < SLOTS
    ensures |run.states[0].core.generations| == |run.states[n].core.generations| == SLOTS
    ensures run.states[n].core.generations[slot] == run.states[0].core.generations[slot] + Invalidations(run, slot, n)
  {
    if n > 0 {
      GenerationsCountInvalidations(excluded, run, slot, n - 1);
      assert Moves(excluded, run, n - 1);
    }
  }

  lemma {:induction false} NoneBetween(run: Run, slot: nat, j: nat, n: nat)
    requires j <= n <= |run.actions|
    ensures Invalidations(run, slot, j) <= Invalidations(run, slot, n)
    ensures Invalidations(run, slot, j) == Invalidations(run, slot, n) ==>
              forall m | j <= m < n :: !(run.actions[m].Invalidate? && run.actions[m].slot == slot)
  {
    if j < n {
      NoneBetween(run, slot, j, n - 1);
    }
  }

  /**
   * A lookup never returns a path stored for a descriptor that has been closed or opened anew since: the
   * store began with a sample of the slot's generation, and no step between that and the hit
   * invalidated the slot.
   */
  lemma HitWasNotInvalidated(excluded: Path -> bool, run: Run, i: nat) returns (stored: Stored, j: nat)
    requires IsRun(excluded, run) && i < |run.actions| && run.actions[i].CheckGeneration?
    requires var t := run.actions[i].t; t < |run.states[i + 1].threads| && run.states[i + 1].threads[t].Hit?
    ensures var hit := run.states[i + 1].threads[run.actions[i].t];
            && stored in run.states[i + 1].core.completed && stored.fd == hit.fd && stored.path == hit.buffer
            && j < i && AskedAt(run, j, hit.fd, stored.generation)
            && forall m | j <= m <= i :: !(run.actions[m].Invalidate? && run.actions[m].slot == SlotOf(hit.fd))
  {
    hide Inv, LocalStep, SharedStep, Init;
    stored := HitIsCurrent(excluded, run, i);
    RunAsks(excluded, run, i + 1);
    j :| 0 <= j < i + 1 && AskedAt(run, j, stored.fd, stored.generation);
    hide Moves;
    GenerationsCountInvalidations(excluded, run, SlotOf(stored.fd), j);
    GenerationsCountInvalidations(excluded, run, SlotOf(stored.fd), i + 1);
    NoneBetween(run, SlotOf(stored.fd), j, i + 1);
  }

  // ---- Nothing is missed that is there -------------------------------------------------------

  /** A completed store is what its entry then holds, even and in place. */
  lemma CompletedStoreIsHeld(excluded: Path -> bool, run: Run, i: nat)
    requires IsRun(excluded, run) && i < |run.actions| && run.actions[i].Release?
    ensures run.actions[i].t < |run.states[i].threads| && run.states[i].threads[run.actions[i].t].Filling?
    ensures var thread, core' := run.states[i].threads[run.actions[i].t], run.states[i + 1].core;
            var stored := Stored(thread.fd, thread.path, thread.generation, thread.fromKernel);
            && |core'.entries| == SLOTS && stored in core'.completed
            && core'.entries[SlotOf(thread.fd)].sequence % 2 == 0 && Holds(core'.entries[SlotOf(thread.fd)], stored)
  {
    RunKeepsInv(excluded, run, i);
    assert Moves(excluded, run, i);
    var s, t := run.states[i], run.actions[i].t;
    assert ThreadOk(excluded, s.core, s.threads[t]);
    FilledHolds(s.core.entries[SlotOf(s.threads[t].fd)], s.threads[t]);
  }

  /**
   * Where the entry, untouched since the lookup began, holds a store for the descriptor and the path fits
   * the buffer, no step of the lookup gives up before it has that path and its generation.
   */
  lemma HeldPathIsFound(excluded: Path -> bool, run: Run, i: nat, stored: Stored)
    requires IsRun(excluded, run) && i < |run.actions| && !run.actions[i].Leave? && !run.actions[i].Invalidate?
    requires run.actions[i].t < |run.states[i].threads| && Shaped(run.states[i].core)
    requires var thread, core := run.states[i].threads[run.actions[i].t], run.states[i].core;
             && (thread.Started? || thread.Matched? || thread.Measuring? || thread.Reading?)
             && thread.fd == stored.fd && |stored.path| + 1 <= thread.size && 0 !in stored.path
             && core.entries[SlotOf(stored.fd)].sequence == thread.sequence
             && Holds(core.entries[SlotOf(stored.fd)], stored)
    ensures run.actions[i].t < |run.states[i + 1].threads|
    ensures var thread' := run.states[i + 1].threads[run.actions[i].t];
            && thread' != Idle && !thread'.Hit?
            && (thread'.Checked? ==> thread' == Checked(stored.fd, thread'.size, stored.generation, stored.path))
  {
    RunKeepsInv(excluded, run, i);
    assert Moves(excluded, run, i);
    var core, thread := run.states[i].core, run.states[i].threads[run.actions[i].t];
    assert ThreadOk(excluded, core, thread);
    var entry := core.entries[SlotOf(stored.fd)];
    if thread.Measuring? {
      assert entry.bytes[|stored.path|] == 0;
      assert thread.length <= |stored.path|;
    } else if thread.Reading? {
      FirstZero(entry, stored, thread.length);
    }
  }

  /** A lookup begins unless the table is unused or its entry is being filled, and ends in a hit unless outdated. */
  lemma LookupBeginsAndEnds(excluded: Path -> bool, run: Run, i: nat)
    requires IsRun(excluded, run) && i < |run.actions|
    requires run.actions[i].StartLookup? || run.actions[i].CheckGeneration?
    ensures Shaped(run.states[i].core) && run.actions[i].t < |run.states[i].threads| == |run.states[i + 1].threads|
    ensures var a, core := run.actions[i], run.states[i].core;
            var thread, thread' := run.states[i].threads[a.t], run.states[i + 1].threads[a.t];
            if a.StartLookup? then
              if core.mapped && core.entries[SlotOf(a.fd)].sequence % 2 == 0
              then thread' == Started(a.fd, a.size, core.entries[SlotOf(a.fd)].sequence) else thread' == Idle
            else
              && thread.Checked?
              && if core.generations[SlotOf(thread.fd)] == thread.generation
                 then thread' == Hit(thread.fd, thread.size, thread.buffer) else thread' == Idle
  {
    assert Moves(excluded, run, i);
  }

  /** A store gives up only for a path it may not keep, or to another store of the same slot. */
  lemma StoreGivesUpToAnother(excluded: Path -> bool, run: Run, i: nat)
    requires IsRun(excluded, run) && i < |run.actions| && !run.actions[i].Leave? && !run.actions[i].Release?
    requires run.actions[i].t < |run.states[i].threads| == |run.states[i + 1].threads|
    requires Storing(run.states[i].threads[run.actions[i].t]) && run.states[i + 1].threads[run.actions[i].t] == Idle
    ensures Shaped(run.states[i].core)
    ensures var a, thread := run.actions[i], run.states[i].threads[run.actions[i].t];
            var sequence := run.states[i].core.entries[SlotOf(thread.fd)].sequence;
            match thread
            case Sampled(_, _) =>
              && (a.ReadLink? || a.CallerPath?)
              && (a.path == [] || |a.path| >= 4096 || 0 in a.path || excluded(a.path))
            case Named(_, _, _, _) => sequence % 2 == 1
            case Seen(_, _, _, _, seen) => sequence != seen
            case _ => false
  {
    assert Moves(excluded, run, i);
  }
}
