/**
 * Hits files shared by processes: staged, then linked (created only) or renamed (replaced) into
 * place, by any number of processes that may share a process id and a suffix.
 *
 * Every file operation succeeds or reports that the name exists, and nobody deletes a hits file.
 * One step is one system call of one process.
 */
module HitsFiles {
  /** Staging names one publication tries, and names one unowned write tries. */
  const STAGING_TRIES: nat := 4
  const NAME_TRIES: nat := 4

  type Data = seq<int>

  /** The two kinds of names never coincide: staging names have a prefix no hits file has. */
  datatype Name = Staging(pid: int, nonce: nat, number: int) | Final(number: int)

  /** A file's bytes so far, and all that its writer means to put there. */
  datatype Inode = Inode(content: Data, intended: Data)

  datatype Phase = Idle | Opening | Writing(inode: nat) | Placing(inode: nat) | Cleaning(taken: bool)

  /** `ranOut` notes that a publication found all its staging names taken before the process owned a file. */
  datatype Process = Process(
    pid: int, number: int, owned: bool, ranOut: bool,
    attempt: nat, data: Data, nonce: nat, tried: nat, phase: Phase)

  datatype State = State(dir: map<Name, nat>, inodes: seq<Inode>, procs: seq<Process>, creators: map<int, nat>)

  datatype Action = Begin(data: Data, nonce: nat) | Open | Write(bytes: nat) | Close | Place | Clean(number: int, nonce: nat)

  function Stage(p: Process): Name {
    Staging(p.pid, p.nonce + p.tried, p.number)
  }

  // ---- Steps -------------------------------------------------------------------------------

  predicate Enabled(s: State, i: nat, a: Action) {
    && i < |s.procs|
    && var p := s.procs[i];
       match a
       case Begin(_, _) => p.phase.Idle?
       case Open => p.phase.Opening?
       case Write(bytes) =>
         && p.phase.Writing? && p.phase.inode < |s.inodes|
         && var inode := s.inodes[p.phase.inode]; 1 <= bytes <= |inode.intended| - |inode.content|
       case Close =>
         p.phase.Writing? && p.phase.inode < |s.inodes| &&
         |s.inodes[p.phase.inode].content| == |s.inodes[p.phase.inode].intended|
       case Place => p.phase.Placing?
       case Clean(_, _) => p.phase.Cleaning?
  }

  function SetProc(s: State, i: nat, p: Process): State
    requires i < |s.procs|
  {
    s.(procs := s.procs[i := p])
  }

  /** Exclusive creation of a staging file; a name taken tries the next, and after the last gives up. */
  function OpenStep(s: State, i: nat): State
    requires Enabled(s, i, Open)
  {
    var p := s.procs[i];
    if Stage(p) !in s.dir then
      SetProc(s, i, p.(phase := Writing(|s.inodes|)))
        .(dir := s.dir[Stage(p) := |s.inodes|], inodes := s.inodes + [Inode([], p.data)])
    else if p.tried + 1 < STAGING_TRIES then SetProc(s, i, p.(tried := p.tried + 1))
    else SetProc(s, i, p.(phase := Idle, owned := true, ranOut := p.ranOut || !p.owned))
  }

  /** An owner renames over its file; any other process links, and learns whether the name was taken. */
  function PlaceStep(s: State, i: nat): State
    requires Enabled(s, i, Place)
  {
    var p := s.procs[i];
    if p.owned then
      SetProc(s, i, p.(phase := Idle)).(dir := (s.dir - {Stage(p)})[Final(p.number) := p.phase.inode])
    else if Final(p.number) in s.dir then SetProc(s, i, p.(phase := Cleaning(true)))
    else
      SetProc(s, i, p.(phase := Cleaning(false)))
        .(dir := s.dir[Final(p.number) := p.phase.inode], creators := s.creators[p.number := i])
  }

  /** Removes the staging name; a process whose name was taken goes on with another, up to four times. */
  function CleanStep(s: State, i: nat, number: int, nonce: nat): State
    requires Enabled(s, i, Clean(number, nonce))
  {
    var p := s.procs[i];
    var q := if p.phase.taken
             then p.(number := number, nonce := nonce, tried := 0, attempt := p.attempt + 1,
                     phase := if p.attempt + 1 < NAME_TRIES then Opening else Idle)
             else p.(phase := Idle, owned := true);
    SetProc(s, i, q).(dir := s.dir - {Stage(p)})
  }

  function WriteStep(s: State, i: nat, bytes: nat): State
    requires Enabled(s, i, Write(bytes))
  {
    var at := s.procs[i].phase.inode;
    var inode := s.inodes[at];
    s.(inodes := s.inodes[at := inode.(content := inode.intended[..|inode.content| + bytes])])
  }

  function Next(s: State, i: nat, a: Action): State
    requires Enabled(s, i, a)
  {
    var p := s.procs[i];
    match a
    case Begin(data, nonce) => SetProc(s, i, p.(data := data, nonce := nonce, tried := 0, attempt := 0, phase := Opening))
    case Open => OpenStep(s, i)
    case Write(bytes) => WriteStep(s, i, bytes)
    case Close => SetProc(s, i, p.(phase := Placing(p.phase.inode)))
    case Place => PlaceStep(s, i)
    case Clean(number, nonce) => CleanStep(s, i, number, nonce)
  }

  ghost predicate Init(s: State) {
    && s.dir == map[] && s.inodes == [] && s.creators == map[]
    && forall i | 0 <= i < |s.procs| :: s.procs[i].phase.Idle? && !s.procs[i].owned && !s.procs[i].ranOut
  }

  // ---- The invariant -----------------------------------------------------------------------

  predicate Holds(p: Process) {
    p.phase.Writing? || p.phase.Placing? || p.phase.Cleaning?
  }

  ghost predicate Whole(inode: Inode) {
    inode.content == inode.intended
  }

  /** Names lead to files; a hits file is whole. */
  ghost predicate FilesOk(s: State) {
    && (forall n | n in s.dir :: s.dir[n] < |s.inodes|)
    && (forall n | n in s.dir && n.Final? :: Whole(s.inodes[s.dir[n]]))
  }

  /** A process in a publication has its staging name, and a file no other name leads to. */
  ghost predicate StagingOk(s: State, i: nat)
    requires i < |s.procs|
  {
    var p := s.procs[i];
    && (Holds(p) ==> Stage(p) in s.dir)
    && (p.phase.Writing? || p.phase.Placing? ==>
          && p.phase.inode < |s.inodes|
          && Stage(p) in s.dir && s.dir[Stage(p)] == p.phase.inode
          && forall n | n in s.dir && n != Stage(p) :: s.dir[n] != p.phase.inode)
    && (p.phase.Writing? ==> s.inodes[p.phase.inode].content <= s.inodes[p.phase.inode].intended)
    && (p.phase.Placing? ==> Whole(s.inodes[p.phase.inode]))
    && (p.phase.Cleaning? ==> !p.owned)
  }

  ghost predicate StagesDiffer(s: State) {
    forall i, j | 0 <= i < j < |s.procs| && Holds(s.procs[i]) && Holds(s.procs[j]) :: Stage(s.procs[i]) != Stage(s.procs[j])
  }

  predicate HasLinked(p: Process) {
    p.owned || p.phase == Cleaning(false)
  }

  /** The process that created the file of a process that linked one is that process itself. */
  ghost predicate CreatorOk(s: State, i: nat)
    requires i < |s.procs|
  {
    var p := s.procs[i];
    && (p.ranOut ==> p.owned)
    && (HasLinked(p) && !p.ranOut ==> p.number in s.creators && s.creators[p.number] == i)
  }

  /** A created file exists, and its creator has it, and did not run out of names. */
  ghost predicate CreatedOk(s: State) {
    forall n | n in s.creators ::
      && Final(n) in s.dir && s.creators[n] < |s.procs|
      && var p := s.procs[s.creators[n]]; p.number == n && HasLinked(p) && !p.ranOut
  }

  ghost predicate Inv(s: State) {
    && FilesOk(s) && StagesDiffer(s) && CreatedOk(s)
    && forall i | 0 <= i < |s.procs| :: StagingOk(s, i) && CreatorOk(s, i)
  }

  // ---- Every step keeps it -----------------------------------------------------------------

  lemma BeginKeeps(s: State, i: nat, data: Data, nonce: nat)
    requires Inv(s) && Enabled(s, i, Begin(data, nonce))
    ensures Inv(Next(s, i, Begin(data, nonce)))
  {
    var t := Next(s, i, Begin(data, nonce));
    forall j | 0 <= j < |t.procs| ensures StagingOk(t, j) && CreatorOk(t, j) {
      assert StagingOk(s, j) && CreatorOk(s, j);
    }
  }

  lemma StagesAreTaken(s: State)
    requires Inv(s)
    ensures forall j | 0 <= j < |s.procs| && Holds(s.procs[j]) :: Stage(s.procs[j]) in s.dir
  {
    forall j | 0 <= j < |s.procs| && Holds(s.procs[j]) ensures Stage(s.procs[j]) in s.dir {
      assert StagingOk(s, j);
    }
  }

  lemma CreateKeeps(s: State, i: nat)
    requires Inv(s) && Enabled(s, i, Open) && Stage(s.procs[i]) !in s.dir
    ensures Inv(OpenStep(s, i))
  {
    var t := OpenStep(s, i);
    StagesAreTaken(s);
    assert Stage(t.procs[i]) == Stage(s.procs[i]);
    forall j | 0 <= j < |t.procs| ensures StagingOk(t, j) && CreatorOk(t, j) {
      assert StagingOk(s, j) && CreatorOk(s, j);
    }
  }

  lemma OpenKeeps(s: State, i: nat)
    requires Inv(s) && Enabled(s, i, Open)
    ensures Inv(Next(s, i, Open))
  {
    if Stage(s.procs[i]) !in s.dir {
      CreateKeeps(s, i);
    } else {
      var t := OpenStep(s, i);
      forall j | 0 <= j < |t.procs| ensures StagingOk(t, j) && CreatorOk(t, j) {
        assert StagingOk(s, j) && CreatorOk(s, j);
      }
    }
  }

  lemma WriteKeeps(s: State, i: nat, bytes: nat)
    requires Inv(s) && Enabled(s, i, Write(bytes))
    ensures Inv(Next(s, i, Write(bytes)))
  {
    var t := Next(s, i, Write(bytes));
    assert StagingOk(s, i);
    forall j | 0 <= j < |t.procs| ensures StagingOk(t, j) && CreatorOk(t, j) {
      assert StagingOk(s, j) && CreatorOk(s, j);
    }
  }

  lemma CloseKeeps(s: State, i: nat)
    requires Inv(s) && Enabled(s, i, Close)
    ensures Inv(Next(s, i, Close))
  {
    var t := Next(s, i, Close);
    assert StagingOk(s, i);
    forall j | 0 <= j < |t.procs| ensures StagingOk(t, j) && CreatorOk(t, j) {
      assert StagingOk(s, j) && CreatorOk(s, j);
    }
  }

  lemma RenameKeeps(s: State, i: nat)
    requires Inv(s) && Enabled(s, i, Place) && s.procs[i].owned
    ensures Inv(PlaceStep(s, i))
  {
    var t := PlaceStep(s, i);
    assert StagingOk(s, i) && CreatorOk(s, i);
    forall j | 0 <= j < |t.procs| ensures StagingOk(t, j) && CreatorOk(t, j) {
      assert StagingOk(s, j) && CreatorOk(s, j);
    }
  }

  lemma LinkKeeps(s: State, i: nat)
    requires Inv(s) && Enabled(s, i, Place) && !s.procs[i].owned
    ensures Inv(PlaceStep(s, i))
  {
    var t := PlaceStep(s, i);
    assert StagingOk(s, i) && CreatorOk(s, i);
    forall j | 0 <= j < |t.procs| ensures StagingOk(t, j) && CreatorOk(t, j) {
      assert StagingOk(s, j) && CreatorOk(s, j);
    }
  }

  lemma PlaceKeeps(s: State, i: nat)
    requires Inv(s) && Enabled(s, i, Place)
    ensures Inv(Next(s, i, Place))
  {
    hide Inv;
    if s.procs[i].owned {
      RenameKeeps(s, i);
    } else {
      LinkKeeps(s, i);
    }
  }

  lemma CleanKeeps(s: State, i: nat, number: int, nonce: nat)
    requires Inv(s) && Enabled(s, i, Clean(number, nonce))
    ensures Inv(Next(s, i, Clean(number, nonce)))
  {
    var t := Next(s, i, Clean(number, nonce));
    assert StagingOk(s, i) && CreatorOk(s, i);
    forall j | 0 <= j < |t.procs| ensures StagingOk(t, j) && CreatorOk(t, j) {
      assert StagingOk(s, j) && CreatorOk(s, j);
    }
  }

  lemma StepKeeps(s: State, i: nat, a: Action)
    requires Inv(s) && Enabled(s, i, a)
    ensures Inv(Next(s, i, a))
  {
    hide Inv;
    match a
    case Begin(data, nonce) => BeginKeeps(s, i, data, nonce);
    case Open => OpenKeeps(s, i);
    case Write(bytes) => WriteKeeps(s, i, bytes);
    case Close => CloseKeeps(s, i);
    case Place => PlaceKeeps(s, i);
    case Clean(number, nonce) => CleanKeeps(s, i, number, nonce);
  }

  // ---- Runs --------------------------------------------------------------------------------

  datatype Step = Step(process: nat, action: Action)

  ghost predicate IsRun(states: seq<State>, steps: seq<Step>) {
    && |states| == |steps| + 1 && Init(states[0])
    && forall k | 0 <= k < |steps| ::
         Enabled(states[k], steps[k].process, steps[k].action) &&
         states[k + 1] == Next(states[k], steps[k].process, steps[k].action)
  }

  lemma {:induction false} RunKeepsInv(states: seq<State>, steps: seq<Step>, k: nat)
    requires IsRun(states, steps) && k < |states|
    ensures Inv(states[k])
  {
    hide Inv, Enabled, Next;
    if k == 0 {
      InitInv(states[0]);
    } else {
      RunKeepsInv(states, steps, k - 1);
      var step := steps[k - 1];
      assert Enabled(states[k - 1], step.process, step.action) && states[k] == Next(states[k - 1], step.process, step.action);
      StepKeeps(states[k - 1], step.process, step.action);
    }
  }

  lemma InitInv(s: State)
    requires Init(s)
    ensures Inv(s)
  {
  }

  // ---- What holds in every run -------------------------------------------------------------

  /**
   * A process that owns a file created it, unless one of its publications ran out of staging names;
   * so two processes own the same file only if one of them ran out.
   */
  lemma OwnersCreated(states: seq<State>, steps: seq<Step>, k: nat, i: nat, j: nat)
    requires IsRun(states, steps) && k < |states|
    requires i < |states[k].procs| && states[k].procs[i].owned
    requires j < |states[k].procs| && states[k].procs[j].owned
    ensures var s := states[k];
            && (!s.procs[i].ranOut <==> s.procs[i].number in s.creators && s.creators[s.procs[i].number] == i)
            && (!s.procs[i].ranOut ==> Final(s.procs[i].number) in s.dir)
            && (i != j && s.procs[i].number == s.procs[j].number ==> s.procs[i].ranOut || s.procs[j].ranOut)
  {
    RunKeepsInv(states, steps, k);
    assert CreatorOk(states[k], i) && CreatorOk(states[k], j);
  }

  /** A reader of a hits file sees the whole of some writer's data. */
  lemma HitsFilesAreWhole(states: seq<State>, steps: seq<Step>, k: nat, number: int)
    requires IsRun(states, steps) && k < |states| && Final(number) in states[k].dir
    ensures var s := states[k]; s.dir[Final(number)] < |s.inodes| && Whole(s.inodes[s.dir[Final(number)]])
  {
    RunKeepsInv(states, steps, k);
  }

  /** Nor does the file a reader has open change under it: no step writes a whole file that is in place. */
  lemma OpenFilesStayWhole(s: State, i: nat, a: Action, inode: nat)
    requires Inv(s) && Enabled(s, i, a) && inode < |s.inodes| && Whole(s.inodes[inode])
    ensures inode < |Next(s, i, a).inodes| && Next(s, i, a).inodes[inode] == s.inodes[inode]
  {
    assert StagingOk(s, i);
  }

  /** The step gives a name that leads to a file another file, or takes it away. */
  ghost predicate Replaces(s: State, i: nat, a: Action, number: int)
    requires Enabled(s, i, a)
  {
    && Final(number) in s.dir
    && var t := Next(s, i, a);
       Final(number) !in t.dir || t.dir[Final(number)] != s.dir[Final(number)]
  }

  ghost predicate CreatedBy(s: State, number: int, i: nat) {
    number in s.creators && s.creators[number] == i
  }

  lemma ReplacingStep(s: State, i: nat, a: Action, number: int)
    requires Inv(s) && Enabled(s, i, a)
    ensures Replaces(s, i, a, number) <==>
              a.Place? && s.procs[i].owned && s.procs[i].number == number && Final(number) in s.dir
    ensures s.procs[i].owned && s.procs[i].number == number ==> (CreatedBy(s, number, i) <==> !s.procs[i].ranOut)
  {
    assert StagingOk(s, i) && CreatorOk(s, i);
  }

  /**
   * No process replaces a hits file it did not create, unless a publication of its own ran out of
   * staging names: of the steps of a run that replace or remove a file, those of its creator are
   * exactly those of a process that never ran out.
   */
  lemma OnlyRunningOutReplacesAStrangersFile(states: seq<State>, steps: seq<Step>, k: nat, number: int)
    requires IsRun(states, steps) && k < |steps|
    ensures Enabled(states[k], steps[k].process, steps[k].action)
    ensures Replaces(states[k], steps[k].process, steps[k].action, number) ==>
              (CreatedBy(states[k], number, steps[k].process) <==> !states[k].procs[steps[k].process].ranOut)
  {
    hide Inv, Replaces, CreatedBy;
    RunKeepsInv(states, steps, k);
    assert Enabled(states[k], steps[k].process, steps[k].action);
    ReplacingStep(states[k], steps[k].process, steps[k].action, number);
  }

  /** A publication runs out of staging names at one point only: its fourth name is taken too. */
  lemma RunsOutAtTheFourthName(s: State, i: nat, a: Action)
    requires Inv(s) && Enabled(s, i, a) && !s.procs[i].ranOut
    ensures Next(s, i, a).procs[i].ranOut <==>
              a.Open? && !s.procs[i].owned && s.procs[i].tried + 1 >= 4 && Stage(s.procs[i]) in s.dir
  {
  }

  ghost predicate Taken(s: State, p: Process, k: nat) {
    Staging(p.pid, p.nonce + k, p.number) in s.dir
  }

  /** A publication all of whose names from the current one on are taken. */
  ghost predicate Exhausted(s: State, i: nat) {
    && i < |s.procs| && s.procs[i].phase.Opening? && s.procs[i].tried < STAGING_TRIES
    && forall k | s.procs[i].tried <= k < STAGING_TRIES :: Taken(s, s.procs[i], k)
  }

  /**
   * Then the process owns a file it never created: from any state in which the names still to be
   * tried are taken, its attempts leave every file and every other process as they are, and it an owner.
   */
  lemma {:induction false} RunningOutClaimsOwnership(s: State, i: nat) returns (states: seq<State>)
    requires Exhausted(s, i)
    ensures |states| == STAGING_TRIES - s.procs[i].tried + 1 && states[0] == s
    ensures forall k | 0 <= k < |states| - 1 :: Enabled(states[k], i, Open) && states[k + 1] == Next(states[k], i, Open)
    ensures var t := states[|states| - 1];
            && t.dir == s.dir && t.inodes == s.inodes && t.creators == s.creators && |t.procs| == |s.procs|
            && t.procs[i].owned && t.procs[i].phase.Idle?
            && t.procs[i].number == s.procs[i].number && t.procs[i].pid == s.procs[i].pid
            && forall j | 0 <= j < |s.procs| && j != i :: t.procs[j] == s.procs[j]
    decreases STAGING_TRIES - s.procs[i].tried
  {
    var p := s.procs[i];
    assert Taken(s, p, p.tried);
    var next := OpenStep(s, i);
    if p.tried + 1 == STAGING_TRIES {
      states := [s, next];
    } else {
      assert forall k | p.tried + 1 <= k < STAGING_TRIES :: Taken(next, next.procs[i], k) == Taken(s, p, k);
      var rest := RunningOutClaimsOwnership(next, i);
      states := [s] + rest;
    }
  }

  /** A step after a run makes a longer run. */
  lemma RunGrows(states: seq<State>, steps: seq<Step>, i: nat, a: Action)
    requires IsRun(states, steps) && Enabled(states[|states| - 1], i, a)
    ensures IsRun(states + [Next(states[|states| - 1], i, a)], steps + [Step(i, a)])
  {
    hide Enabled, Next, Init;
    var longer := states + [Next(states[|states| - 1], i, a)];
    forall k | 0 <= k < |steps| + 1
      ensures var step := (steps + [Step(i, a)])[k];
              Enabled(longer[k], step.process, step.action) && longer[k + 1] == Next(longer[k], step.process, step.action)
    {
      assert k < |steps| ==> (steps + [Step(i, a)])[k] == steps[k] && longer[k] == states[k] && longer[k + 1] == states[k + 1];
    }
  }

  const FRESH := Process(1, 1, false, false, 0, [], 0, 0, Idle)

  /** A run ends in a state. */
  ghost predicate Reachable(s: State) {
    exists states, steps :: IsRun(states, steps) && states[|states| - 1] == s
  }

  lemma StepReaches(s: State, i: nat, a: Action)
    requires Reachable(s) && Enabled(s, i, a)
    ensures Reachable(Next(s, i, a))
  {
    hide Enabled, Next;
    var states, steps :| IsRun(states, steps) && states[|states| - 1] == s;
    RunGrows(states, steps, i, a);
    var longer := states + [Next(s, i, a)];
    assert longer[|longer| - 1] == Next(s, i, a);
  }

  /** A fresh process begins to publish nothing and makes its staging file. */
  lemma StagesNothing(s: State, i: nat, nonce: nat) returns (t: State)
    requires Reachable(s) && i < |s.procs| && s.procs[i] == FRESH && Staging(1, nonce, 1) !in s.dir
    ensures Reachable(t) && t.creators == s.creators && |t.procs| == |s.procs|
    ensures t.dir == s.dir[Staging(1, nonce, 1) := |s.inodes|] && t.inodes == s.inodes + [Inode([], [])]
    ensures t.procs == s.procs[i := FRESH.(nonce := nonce, phase := Writing(|s.inodes|))]
  {
    StepReaches(s, i, Begin([], nonce));
    t := Next(s, i, Begin([], nonce));
    StepReaches(t, i, Open);
    t := Next(t, i, Open);
  }

  /** A first process creates and owns the file; the others are untouched. */
  lemma FirstOwner() returns (s: State)
    ensures Reachable(s) && |s.procs| == 6 && s.procs[0].owned && s.procs[0].number == 1
    ensures forall i | 1 <= i < 6 :: s.procs[i] == FRESH
    ensures s.dir == map[Final(1) := 0] && s.creators == map[1 := 0]
  {
    var start := State(map[], [], [FRESH, FRESH, FRESH, FRESH, FRESH, FRESH], map[]);
    assert IsRun([start], []) && [start][0] == start;
    s := StagesNothing(start, 0, 0);
    StepReaches(s, 0, Close);
    s := Next(s, 0, Close);
    StepReaches(s, 0, Place);
    s := Next(s, 0, Place);
    StepReaches(s, 0, Clean(0, 0));
    s := Next(s, 0, Clean(0, 0));
  }

  /**
   * Two owners of one file: with four processes in the middle of publishing under the staging
   * names of a sixth, the sixth ends up owning the file the first created.
   */
  lemma TwoOwnersAreReachable() returns (s: State)
    ensures Reachable(s) && |s.procs| == 6
    ensures s.procs[0].owned && s.procs[5].owned && s.procs[0].number == s.procs[5].number == 1
    ensures CreatedBy(s, 1, 0) && s.procs[5].phase.Idle? && s.procs[5].pid == 1
    ensures Final(1) in s.dir && Staging(1, STAGING_TRIES, 1) !in s.dir
  {
    hide Reachable, Enabled, Next;
    s := FirstOwner();
    s := StagesNothing(s, 1, 0);
    s := StagesNothing(s, 2, 1);
    s := StagesNothing(s, 3, 2);
    s := StagesNothing(s, 4, 3);
    s := BeginsSixth(s);
    var tail := RunningOutClaimsOwnership(s, 5);
    TailReaches(tail, 5);
    s := tail[|tail| - 1];
  }

  lemma BeginsSixth(s: State) returns (t: State)
    requires Reachable(s) && |s.procs| == 6 && s.procs[5] == FRESH
    requires forall k | 0 <= k < STAGING_TRIES :: Taken(s, FRESH, k)
    ensures Reachable(t) && Exhausted(t, 5) && |t.procs| == 6 && t.procs[5].number == 1
    ensures t.procs[5].pid == 1 && t.procs[0] == s.procs[0] && t.dir == s.dir && t.creators == s.creators
  {
    StepReaches(s, 5, Begin([], 0));
    t := Next(s, 5, Begin([], 0));
    assert forall k | 0 <= k < STAGING_TRIES :: Taken(t, t.procs[5], k) == Taken(s, FRESH, k);
  }

  lemma {:induction false} TailReaches(states: seq<State>, i: nat)
    requires |states| > 0 && Reachable(states[0])
    requires forall k | 0 <= k < |states| - 1 :: Enabled(states[k], i, Open) && states[k + 1] == Next(states[k], i, Open)
    ensures Reachable(states[|states| - 1])
    decreases |states|
  {
    hide Enabled, Next, Reachable;
    if |states| > 1 {
      StepReaches(states[0], i, Open);
      TailReaches(states[1..], i);
    }
  }

  /** The sixth then publishes under a free staging name, and replaces the file the first created. */
  lemma StrangersFileIsReplaced() returns (s: State)
    ensures Reachable(s) && Enabled(s, 5, Place)
    ensures Replaces(s, 5, Place, 1) && CreatedBy(s, 1, 0)
  {
    hide Reachable;
    s := TwoOwnersAreReachable();
    StepReaches(s, 5, Begin([], STAGING_TRIES));
    s := Next(s, 5, Begin([], STAGING_TRIES));
    StepReaches(s, 5, Open);
    s := Next(s, 5, Open);
    StepReaches(s, 5, Close);
    s := Next(s, 5, Close);
    ReachableInv(s);
    ReplacingStep(s, 5, Place, 1);
  }

  lemma ReachableInv(s: State)
    requires Reachable(s)
    ensures Inv(s)
  {
    hide Inv, Enabled, Next;
    var states, steps :| IsRun(states, steps) && states[|states| - 1] == s;
    RunKeepsInv(states, steps, |states| - 1);
  }

  // ---- What is published ---------------------------------------------------------------------

  /** What process i last set out to publish, before step k. */
  ghost function LastData(steps: seq<Step>, i: nat, k: nat): Data
    requires k <= |steps|
  {
    if k == 0 then []
    else if steps[k - 1].process == i && steps[k - 1].action.Begin? then steps[k - 1].action.data
    else LastData(steps, i, k - 1)
  }

  /** Hits files it found taken since then. */
  ghost function FoundTaken(states: seq<State>, steps: seq<Step>, i: nat, k: nat): nat
    requires |states| == |steps| + 1 && k <= |steps|
  {
    if k == 0 || (steps[k - 1].process == i && steps[k - 1].action.Begin?) then 0
    else
      FoundTaken(states, steps, i, k - 1) +
      if steps[k - 1].process == i && steps[k - 1].action.Place? && i < |states[k - 1].procs|
         && !states[k - 1].procs[i].owned && Final(states[k - 1].procs[i].number) in states[k - 1].dir then 1 else 0
  }

  /** Staging names it found taken since it set out on its present number. */
  ghost function StagingTaken(states: seq<State>, steps: seq<Step>, i: nat, k: nat): nat
    requires |states| == |steps| + 1 && k <= |steps|
  {
    if k == 0 || (steps[k - 1].process == i && (steps[k - 1].action.Begin? || steps[k - 1].action.Clean?)) then 0
    else
      StagingTaken(states, steps, i, k - 1) +
      if steps[k - 1].process == i && steps[k - 1].action.Open? && i < |states[k - 1].procs|
         && Stage(states[k - 1].procs[i]) in states[k - 1].dir then 1 else 0
  }

  /** A process writes what it set out to publish. */
  ghost predicate WritesData(s: State, steps: seq<Step>, i: nat, k: nat)
    requires k <= |steps| && i < |s.procs|
  {
    var p := s.procs[i];
    && (!p.phase.Idle? ==> p.data == LastData(steps, i, k))
    && (p.phase.Writing? || p.phase.Placing? ==> p.phase.inode < |s.inodes| && s.inodes[p.phase.inode].intended == p.data)
  }

  /** It counts the names it found taken. */
  ghost predicate CountsNames(states: seq<State>, steps: seq<Step>, i: nat, k: nat)
    requires |states| == |steps| + 1 && k <= |steps| && i < |states[k].procs|
  {
    var p := states[k].procs[i];
    && (!p.phase.Idle? ==>
          FoundTaken(states, steps, i, k) == p.attempt + (if p.phase == Cleaning(true) then 1 else 0) && p.attempt < 4)
    && (p.phase.Opening? ==> StagingTaken(states, steps, i, k) == p.tried < 4)
  }

  ghost predicate Publishes(states: seq<State>, steps: seq<Step>, i: nat, k: nat)
    requires |states| == |steps| + 1 && k <= |steps| && i < |states[k].procs|
  {
    WritesData(states[k], steps, i, k) && CountsNames(states, steps, i, k)
  }

  /** No step changes what a file is meant to hold. */
  lemma IntendedStays(s: State, i: nat, a: Action)
    requires Enabled(s, i, a)
    ensures |Next(s, i, a).inodes| >= |s.inodes| && |Next(s, i, a).procs| == |s.procs|
    ensures forall n | 0 <= n < |s.inodes| :: Next(s, i, a).inodes[n].intended == s.inodes[n].intended
    ensures forall j | 0 <= j < |s.procs| && j != i :: Next(s, i, a).procs[j] == s.procs[j]
  {
  }

  lemma StepWritesData(s: State, steps: seq<Step>, i: nat, k: nat)
    requires k < |steps| && i < |s.procs| && WritesData(s, steps, i, k) && Enabled(s, steps[k].process, steps[k].action)
    ensures var t := Next(s, steps[k].process, steps[k].action); i < |t.procs| && WritesData(t, steps, i, k + 1)
  {
    IntendedStays(s, steps[k].process, steps[k].action);
    if steps[k].process != i {
      hide Enabled, Next;
    }
  }

  lemma StepCountsNames(states: seq<State>, steps: seq<Step>, i: nat, k: nat)
    requires |states| == |steps| + 1 && k < |steps| && i < |states[k].procs| && CountsNames(states, steps, i, k)
    requires Enabled(states[k], steps[k].process, steps[k].action)
    requires states[k + 1] == Next(states[k], steps[k].process, steps[k].action)
    ensures i < |states[k + 1].procs| && CountsNames(states, steps, i, k + 1)
  {
    IntendedStays(states[k], steps[k].process, steps[k].action);
    if steps[k].process != i {
      hide Enabled, Next;
    }
  }

  lemma StepPublishes(states: seq<State>, steps: seq<Step>, i: nat, k: nat)
    requires IsRun(states, steps) && k < |steps| && i < |states[k].procs| && Publishes(states, steps, i, k)
    ensures i < |states[k + 1].procs| && Publishes(states, steps, i, k + 1)
  {
    hide WritesData, CountsNames, Init;
    var step := steps[k];
    assert Enabled(states[k], step.process, step.action) && states[k + 1] == Next(states[k], step.process, step.action);
    hide IsRun, Enabled, Next;
    StepWritesData(states[k], steps, i, k);
    StepCountsNames(states, steps, i, k);
  }

  lemma {:induction false} RunPublishes(states: seq<State>, steps: seq<Step>, i: nat, k: nat)
    requires IsRun(states, steps) && k <= |steps| && i < |states[0].procs|
    ensures i < |states[k].procs| && Publishes(states, steps, i, k)
  {
    if k > 0 {
      hide IsRun, Publishes;
      RunPublishes(states, steps, i, k - 1);
      StepPublishes(states, steps, i, k - 1);
    }
  }

  lemma {:induction false} SameProcesses(states: seq<State>, steps: seq<Step>, k: nat)
    requires IsRun(states, steps) && k <= |steps|
    ensures |states[k].procs| == |states[0].procs|
  {
    if k > 0 {
      SameProcesses(states, steps, k - 1);
      var step := steps[k - 1];
      assert Enabled(states[k - 1], step.process, step.action) && states[k] == Next(states[k - 1], step.process, step.action);
    }
  }

  /** The step makes a hits file's name lead to a file it did not lead to. */
  ghost predicate Places(before: State, after: State, number: int) {
    Final(number) in after.dir && (Final(number) !in before.dir || after.dir[Final(number)] != before.dir[Final(number)])
  }

  /**
   * Whatever comes under a hits file's name is, to the last byte, what the process that put it there
   * had last set out to publish.
   */
  lemma PublishedIsTheData(states: seq<State>, steps: seq<Step>, k: nat, number: int)
    requires IsRun(states, steps) && k < |steps| && Places(states[k], states[k + 1], number)
    ensures steps[k].action == Place && steps[k].process < |states[k].procs|
    ensures states[k].procs[steps[k].process].number == number
    ensures var s := states[k + 1];
            s.dir[Final(number)] < |s.inodes| && s.inodes[s.dir[Final(number)]].content == LastData(steps, steps[k].process, k)
  {
    hide Publishes;
    var step := steps[k];
    assert Enabled(states[k], step.process, step.action) && states[k + 1] == Next(states[k], step.process, step.action);
    SameProcesses(states, steps, k);
    RunPublishes(states, steps, step.process, k);
    RunKeepsInv(states, steps, k);
    PlacedContent(states, steps, k, number);
  }

  lemma PlacedContent(states: seq<State>, steps: seq<Step>, k: nat, number: int)
    requires |states| == |steps| + 1 && k < |steps|
    requires Enabled(states[k], steps[k].process, steps[k].action)
    requires states[k + 1] == Next(states[k], steps[k].process, steps[k].action)
    requires Inv(states[k]) && Publishes(states, steps, steps[k].process, k) && Places(states[k], states[k + 1], number)
    ensures steps[k].action == Place && states[k].procs[steps[k].process].number == number
    ensures var s := states[k + 1];
            s.dir[Final(number)] < |s.inodes| && s.inodes[s.dir[Final(number)]].content == LastData(steps, steps[k].process, k)
  {
    hide LastData, FoundTaken;
    assert StagingOk(states[k], steps[k].process);
  }

  /** A process that owns no file tries four names and then gives the publication up. */
  lemma GivesUpAtTheFourthName(states: seq<State>, steps: seq<Step>, k: nat)
    requires IsRun(states, steps) && k < |steps| && steps[k].action.Clean?
    ensures steps[k].process < |states[k].procs| == |states[k + 1].procs|
    ensures var i := steps[k].process;
            var taken := states[k].procs[i].phase == Cleaning(true);
            && FoundTaken(states, steps, i, k) <= 4
            && (taken ==> !states[k + 1].procs[i].owned
                          && states[k + 1].procs[i].phase == if FoundTaken(states, steps, i, k) == 4 then Idle else Opening)
            && (!taken ==> states[k + 1].procs[i].owned && states[k + 1].procs[i].phase == Idle)
  {
    var step := steps[k];
    assert Enabled(states[k], step.process, step.action) && states[k + 1] == Next(states[k], step.process, step.action);
    SameProcesses(states, steps, k);
    RunPublishes(states, steps, step.process, k);
    RunKeepsInv(states, steps, k);
    assert StagingOk(states[k], step.process);
  }

  /** A publication tries four staging names and then gives up, with the process taken for an owner. */
  lemma GivesUpAtTheFourthStaging(states: seq<State>, steps: seq<Step>, k: nat)
    requires IsRun(states, steps) && k < |steps| && steps[k].action.Open?
    ensures steps[k].process < |states[k].procs| == |states[k + 1].procs|
    ensures var i, before := steps[k].process, states[k];
            var p' := states[k + 1].procs[i];
            if Stage(before.procs[i]) !in before.dir then p'.phase.Writing?
            else if StagingTaken(states, steps, i, k) < 3 then p'.phase == Opening
            else p'.phase == Idle && p'.owned
  {
    var step := steps[k];
    assert Enabled(states[k], step.process, step.action) && states[k + 1] == Next(states[k], step.process, step.action);
    SameProcesses(states, steps, k);
    RunPublishes(states, steps, step.process, k);
  }

  /** Every staging name there is belongs to a process in the middle of a publication: none is left behind. */
  ghost predicate StagingInUse(s: State) {
    forall n | n in s.dir && n.Staging? :: exists i :: 0 <= i < |s.procs| && Holds(s.procs[i]) && Stage(s.procs[i]) == n
  }

  lemma StepLeavesNoStaging(s: State, i: nat, a: Action)
    requires StagingInUse(s) && Enabled(s, i, a)
    ensures StagingInUse(Next(s, i, a))
  {
    var t := Next(s, i, a);
    forall n | n in t.dir && n.Staging? ensures exists j :: 0 <= j < |t.procs| && Holds(t.procs[j]) && Stage(t.procs[j]) == n {
      if n in s.dir {
        var j :| 0 <= j < |s.procs| && Holds(s.procs[j]) && Stage(s.procs[j]) == n;
        assert j != i ==> t.procs[j] == s.procs[j];
        assert j == i ==> Holds(t.procs[i]) && Stage(t.procs[i]) == n;
      } else {
        assert Holds(t.procs[i]) && Stage(t.procs[i]) == n;
      }
    }
  }

  lemma {:induction false} NoStagingIsLeft(states: seq<State>, steps: seq<Step>, k: nat)
    requires IsRun(states, steps) && k <= |steps|
    ensures StagingInUse(states[k])
  {
    if k > 0 {
      NoStagingIsLeft(states, steps, k - 1);
      var step := steps[k - 1];
      assert Enabled(states[k - 1], step.process, step.action) && states[k] == Next(states[k - 1], step.process, step.action);
      StepLeavesNoStaging(states[k - 1], step.process, step.action);
    }
  }
}
