/**
 * The seccomp filter compiler: a list of system calls becomes a classic BPF program whose every
 * verdict is a set-membership test.
 *
 * The platform's numbers (audit architecture, tables, sendmsg, flags) are parameters; a C
 * conversion to an unsigned 32-bit word or an unsigned char is written out.
 */
module BpfFilter {
  import opened Sets

  const TWO32: nat := 0x1_0000_0000
  const X32_BIT: nat := 0x4000_0000
  /** Room of the collection buffer (CHAOS_INIT_MAX_FILTER). */
  const MAX_FILTER: nat := 128

  datatype Platform = Platform(
    arch: nat,
    x32: bool,
    sendmsg: nat,
    handoverFlags: nat,
    io: seq<nat>,
    net: seq<nat>,
    memory: seq<nat>,
    process: seq<nat>)

  datatype Libs = Libs(io: bool, net: bool, memory: bool, process: bool)

  /** A build's numbers are 32-bit words. */
  ghost predicate IsPlatform(p: Platform) {
    && p.arch < TWO32 && p.sendmsg < TWO32 && p.handoverFlags < TWO32
    && (forall nr | nr in p.io + p.net + p.memory + p.process :: nr < TWO32)
  }

  function Tables(p: Platform): set<nat> {
    Elements(p.io) + Elements(p.net) + Elements(p.memory) + Elements(p.process)
  }

  function Elements(table: seq<nat>): set<nat> {
    set nr | nr in table
  }

  /** Every system call routed to the supervisor for the selected libraries. */
  function Routed(p: Platform, libs: Libs): set<nat> {
    (if libs.io then Elements(p.io) else {}) +
    (if libs.net then Elements(p.net) else {}) +
    (if libs.memory then Elements(p.memory) else {}) +
    (if libs.process then Elements(p.process) else {})
  }

  lemma RoutedIsNative(p: Platform, libs: Libs, nr: nat)
    requires IsPlatform(p) && nr in Routed(p, libs)
    ensures nr < TWO32
  {
    assert nr in p.io + p.net + p.memory + p.process;
  }

  // ---- Classic BPF -------------------------------------------------------------------------

  datatype Verdict = Allow | UserNotif

  datatype Instruction =
    | Load(offset: nat)
    | JumpIfEqual(k: nat, jt: nat, jf: nat)
    | JumpIfAtLeast(k: nat, jt: nat, jf: nat)
    | Return(verdict: Verdict)

  /** The record a filter inspects: the 32-bit number and architecture, the 64-bit arguments. */
  datatype SeccompData = SeccompData(nr: nat, arch: nat, args: seq<nat>)

  ghost predicate IsData(data: SeccompData) {
    data.nr < TWO32 && data.arch < TWO32 && |data.args| == 6
  }

  const NR_OFFSET: nat := 0
  const ARCH_OFFSET: nat := 4
  const ARG0_OFFSET: nat := 16
  const ARG2_OFFSET: nat := 32

  function Low32(value: nat): nat {
    value % TWO32
  }

  /** The word at a byte offset of the record, on a little-endian machine. */
  function LoadWord(data: SeccompData, offset: nat): nat
    requires IsData(data)
  {
    if offset == NR_OFFSET then data.nr
    else if offset == ARCH_OFFSET then data.arch
    else if 16 <= offset < 64 && offset % 8 == 0 then Low32(data.args[(offset - 16) / 8])
    else if 16 <= offset < 64 && offset % 8 == 4 then data.args[(offset - 16) / 8] / TWO32 % TWO32
    else 0
  }

  datatype Outcome = Verdict(verdict: Verdict) | Fault

  /** Runs a program; leaving it without returning is a fault. Jumps only go forward. */
  function Run(program: seq<Instruction>, pc: nat, acc: nat, data: SeccompData): Outcome
    requires IsData(data)
    decreases |program| - pc
  {
    if pc >= |program| then Fault
    else match program[pc]
      case Load(offset) => Run(program, pc + 1, LoadWord(data, offset), data)
      case JumpIfEqual(k, jt, jf) => Run(program, pc + 1 + (if acc == k then jt else jf), acc, data)
      case JumpIfAtLeast(k, jt, jf) => Run(program, pc + 1 + (if acc >= k then jt else jf), acc, data)
      case Return(verdict) => Verdict(verdict)
  }

  /** Classic BPF jump offsets are single bytes. */
  ghost predicate Encodable(program: seq<Instruction>) {
    forall i | 0 <= i < |program| ::
      match program[i]
      case JumpIfEqual(k, jt, jf) => k < TWO32 && jt < 256 && jf < 256
      case JumpIfAtLeast(k, jt, jf) => k < TWO32 && jt < 256 && jf < 256
      case _ => true
  }

  // ---- The program the compiler writes -----------------------------------------------------

  function Prologue(p: Platform): seq<Instruction> {
    [Load(ARCH_OFFSET), JumpIfEqual(p.arch, 1, 0), Return(Allow), Load(NR_OFFSET)] +
    if p.x32 then [JumpIfAtLeast(X32_BIT, 0, 1), Return(Allow)] else []
  }

  /** sendmsg on the handover descriptor with the handover flags passes; any other notifies. */
  function HandoverBlock(p: Platform, handoverFd: int): seq<Instruction> {
    [ JumpIfEqual(p.sendmsg, 0, 6),
      Load(ARG0_OFFSET), JumpIfEqual(handoverFd % TWO32, 0, 3),
      Load(ARG2_OFFSET), JumpIfEqual(p.handoverFlags, 0, 1),
      Return(Allow), Return(UserNotif) ]
  }

  function Chain(calls: seq<nat>, index: nat): (chain: seq<Instruction>)
    requires index <= |calls|
    ensures |chain| == index
  {
    seq(index, i requires 0 <= i < index => JumpIfEqual(calls[i] % TWO32, (|calls| - i) % 256, 0))
  }

  function Program(p: Platform, handoverFd: int, handover: bool, calls: seq<nat>): seq<Instruction> {
    Prologue(p) + (if handover then HandoverBlock(p, handoverFd) else []) +
    Chain(calls, |calls|) + [Return(Allow), Return(UserNotif)]
  }

  // ---- What the program means --------------------------------------------------------------

  /** Whether a call reaches the supervisor. */
  ghost predicate Notified(p: Platform, libs: Libs, handoverFd: int, data: SeccompData)
    requires IsData(data)
  {
    && data.arch == p.arch
    && (p.x32 ==> data.nr < 0x4000_0000)
    && (|| (libs.io && data.nr in p.io) || (libs.net && data.nr in p.net)
        || (libs.memory && data.nr in p.memory) || (libs.process && data.nr in p.process))
    && !(&& data.nr == p.sendmsg && data.args[0] % 0x1_0000_0000 == handoverFd % 0x1_0000_0000
         && data.args[2] % 0x1_0000_0000 == p.handoverFlags)
  }

  lemma RoutedByTables(p: Platform, libs: Libs, nr: nat)
    ensures nr in Routed(p, libs) <==>
              || (libs.io && nr in p.io) || (libs.net && nr in p.net)
              || (libs.memory && nr in p.memory) || (libs.process && nr in p.process)
  {
  }

  /** From test `index` of the chain, the program notifies exactly the numbers still listed. */
  lemma {:induction false} ChainDecides(program: seq<Instruction>, base: nat, calls: seq<nat>, index: nat, data: SeccompData)
    requires IsData(data) && index <= |calls| < 256
    requires forall i | 0 <= i < |calls| :: calls[i] < TWO32
    requires base + |calls| + 2 == |program|
    requires program[base..] == Chain(calls, |calls|) + [Return(Allow), Return(UserNotif)]
    ensures Run(program, base + index, data.nr, data) == Verdict(if data.nr in calls[index..] then UserNotif else Allow)
    decreases |calls| - index
  {
    var here := program[base..][index];
    assert program[base + index] == here;
    if index < |calls| {
      ChainDecides(program, base, calls, index + 1, data);
      assert here == JumpIfEqual(calls[index], |calls| - index, 0);
      assert calls[index..] == [calls[index]] + calls[index + 1..];
      assert program[base + |calls| + 1] == program[base..][|calls| + 1] == Return(UserNotif);
    } else {
      assert calls[index..] == [];
    }
  }

  /** The handover block decides sendmsg and hands every other number on to the chain. */
  lemma HandoverDecides(program: seq<Instruction>, base: nat, p: Platform, handoverFd: int, data: SeccompData)
    requires IsData(data) && base + 7 <= |program|
    requires program[base..base + 7] == HandoverBlock(p, handoverFd)
    ensures data.nr != p.sendmsg ==> Run(program, base, data.nr, data) == Run(program, base + 7, data.nr, data)
    ensures data.nr == p.sendmsg ==>
              Run(program, base, data.nr, data) ==
              Verdict(if Low32(data.args[0]) == handoverFd % TWO32 && Low32(data.args[2]) == p.handoverFlags
                      then Allow else UserNotif)
  {
    var block := program[base..base + 7];
    assert program[base] == block[0] == JumpIfEqual(p.sendmsg, 0, 6);
    if data.nr == p.sendmsg {
      HandoverCompares(program, base, p, handoverFd, data);
    } else {
      assert Run(program, base, data.nr, data) == Run(program, base + 7, data.nr, data);
    }
  }

  /** Past the number test, the block compares the descriptor and then the flags. */
  lemma HandoverCompares(program: seq<Instruction>, base: nat, p: Platform, handoverFd: int, data: SeccompData)
    requires IsData(data) && base + 7 <= |program|
    requires program[base..base + 7] == HandoverBlock(p, handoverFd)
    ensures Run(program, base + 1, data.nr, data) ==
            Verdict(if Low32(data.args[0]) == handoverFd % TWO32 && Low32(data.args[2]) == p.handoverFlags
                    then Allow else UserNotif)
  {
    var block := program[base..base + 7];
    assert program[base + 1] == block[1] == Load(ARG0_OFFSET);
    assert program[base + 2] == block[2] == JumpIfEqual(handoverFd % TWO32, 0, 3);
    assert program[base + 3] == block[3] == Load(ARG2_OFFSET);
    assert program[base + 4] == block[4] == JumpIfEqual(p.handoverFlags, 0, 1);
    assert program[base + 5] == block[5] == Return(Allow);
    assert program[base + 6] == block[6] == Return(UserNotif);
    var fd, flags := Low32(data.args[0]), Low32(data.args[2]);
    assert Run(program, base + 5, flags, data) == Verdict(Allow);
    assert Run(program, base + 6, flags, data) == Verdict(UserNotif);
    assert Run(program, base + 6, fd, data) == Verdict(UserNotif);
    assert Run(program, base + 4, flags, data) == Verdict(if flags == p.handoverFlags then Allow else UserNotif);
    assert LoadWord(data, ARG2_OFFSET) == flags;
    assert Run(program, base + 3, fd, data) == Run(program, base + 4, flags, data);
    assert LoadWord(data, ARG0_OFFSET) == fd;
  }

  /** The prologue allows foreign architectures and x32, and otherwise goes on with the number. */
  lemma PrologueDecides(program: seq<Instruction>, p: Platform, acc: nat, data: SeccompData)
    requires IsData(data) && Prologue(p) <= program
    ensures data.arch != p.arch || (p.x32 && data.nr >= X32_BIT) ==> Run(program, 0, acc, data) == Verdict(Allow)
    ensures data.arch == p.arch && (p.x32 ==> data.nr < X32_BIT) ==>
              Run(program, 0, acc, data) == Run(program, |Prologue(p)|, data.nr, data)
  {
    var prologue := Prologue(p);
    assert forall i | 0 <= i < |prologue| :: program[i] == prologue[i];
    assert Run(program, 0, acc, data) == Run(program, 1, data.arch, data);
    if data.arch != p.arch {
      assert Run(program, 1, data.arch, data) == Run(program, 2, data.arch, data);
    } else {
      assert Run(program, 1, data.arch, data) == Run(program, 3, data.arch, data) == Run(program, 4, data.nr, data);
      if p.x32 {
        assert Run(program, 5, data.nr, data) == Verdict(Allow);
      }
    }
  }

  /** Where the three parts of a program begin. */
  lemma ProgramParts(p: Platform, handoverFd: int, handover: bool, calls: seq<nat>)
    ensures var program, base := Program(p, handoverFd, handover, calls), |Prologue(p)|;
            var chain := if handover then base + 7 else base;
            && Prologue(p) <= program && chain <= |program|
            && program[chain..] == Chain(calls, |calls|) + [Return(Allow), Return(UserNotif)]
            && (handover ==> program[base..chain] == HandoverBlock(p, handoverFd))
  {
    hide Prologue, Chain, HandoverBlock;
    var block := if handover then HandoverBlock(p, handoverFd) else [];
    var tail := Chain(calls, |calls|) + [Return(Allow), Return(UserNotif)];
    assert |block| == if handover then 7 else 0 by {
      BlockLength(p, handoverFd);
    }
    assert Program(p, handoverFd, handover, calls) == Prologue(p) + block + tail;
  }

  lemma BlockLength(p: Platform, handoverFd: int)
    ensures |HandoverBlock(p, handoverFd)| == 7
  {
  }

  /** The compiled program notifies exactly the routed calls, and returns for every record. */
  lemma ProgramDecides(p: Platform, libs: Libs, handoverFd: int, handover: bool, calls: seq<nat>, data: SeccompData)
    requires IsPlatform(p) && IsData(data) && |calls| < 256
    requires forall i | 0 <= i < |calls| :: calls[i] < TWO32
    requires handover <==> p.sendmsg in Routed(p, libs)
    requires forall nr | nr != p.sendmsg :: nr in calls <==> nr in Routed(p, libs)
    requires p.sendmsg !in calls
    ensures Run(Program(p, handoverFd, handover, calls), 0, 0, data) ==
            Verdict(if Notified(p, libs, handoverFd, data) then UserNotif else Allow)
  {
    var program := Program(p, handoverFd, handover, calls);
    var base := |Prologue(p)|;
    ProgramParts(p, handoverFd, handover, calls);
    RoutedByTables(p, libs, data.nr);
    hide Program, Routed;
    PrologueDecides(program, p, 0, data);
    var chain := if handover then base + 7 else base;
    ChainDecides(program, chain, calls, 0, data);
    assert calls[0..] == calls;
    if handover {
      HandoverDecides(program, base, p, handoverFd, data);
    }
  }

  // ---- The compiler ------------------------------------------------------------------------

  /** The list holds each number of `wanted` once. */
  ghost predicate Collected(list: seq<nat>, wanted: set<nat>) {
    && (forall nr :: nr in list <==> nr in wanted)
    && (forall i, j | 0 <= i < j < |list| :: list[i] != list[j])
  }

  lemma {:induction false} CollectedSize(list: seq<nat>, wanted: set<nat>)
    requires Collected(list, wanted)
    ensures |list| == |wanted|
  {
    if list == [] {
      assert wanted == {};
    } else {
      var last := list[|list| - 1];
      var front := list[..|list| - 1];
      assert list == front + [last];
      forall nr ensures nr in front <==> nr in wanted - {last} {
        if nr in front {
          var j :| 0 <= j < |front| && front[j] == nr;
          assert list[j] != list[|list| - 1];
        }
      }
      CollectedSize(front, wanted - {last});
      assert last in wanted;
    }
  }

  /** Appends `nr` unless it is listed; the caller guarantees room for the union. */
  method AddSyscall(nr: nat, list: array<nat>, count: nat, ghost wanted: set<nat>) returns (count': nat)
    requires count <= list.Length && Collected(list[..count], wanted) && |wanted + {nr}| <= list.Length
    modifies list
    ensures count' <= list.Length && Collected(list[..count'], wanted + {nr})
  {
    var index := 0;
    while index < count
      invariant index <= count && nr !in list[..index]
    {
      if list[index] == nr {
        assert list[..count][index] == nr;
        return count;
      }
      index := index + 1;
    }
    ghost var before := list[..count];
    CollectedSize(before, wanted);
    assert nr !in before;
    list[count] := nr;
    count' := count + 1;
    assert list[..count'] == before + [nr];
  }

  method AddAll(table: seq<nat>, list: array<nat>, count: nat, ghost wanted: set<nat>) returns (count': nat)
    requires count <= list.Length && Collected(list[..count], wanted) && |wanted + Elements(table)| <= list.Length
    modifies list
    ensures count' <= list.Length && Collected(list[..count'], wanted + Elements(table))
  {
    count' := count;
    var i := 0;
    while i < |table|
      invariant i <= |table| && count' <= list.Length
      invariant Collected(list[..count'], wanted + Elements(table[..i]))
    {
      assert table[..i + 1] == table[..i] + [table[i]];
      assert Elements(table[..i + 1]) == Elements(table[..i]) + {table[i]};
      assert wanted + Elements(table[..i + 1]) == wanted + Elements(table[..i]) + {table[i]};
      SubsetSize(wanted + Elements(table[..i + 1]), wanted + Elements(table));
      count' := AddSyscall(table[i], list, count', wanted + Elements(table[..i]));
      i := i + 1;
    }
    assert table[..|table|] == table;
  }

  /** Adds one library's table when the library is selected. */
  method AddSelected(selected: bool, table: seq<nat>, list: array<nat>, count: nat,
                     ghost wanted: set<nat>, ghost all: set<nat>) returns (count': nat)
    requires count <= list.Length && Collected(list[..count], wanted)
    requires wanted <= all && Elements(table) <= all && |all| <= list.Length
    modifies list
    ensures count' <= list.Length
    ensures Collected(list[..count'], wanted + if selected then Elements(table) else {})
  {
    count' := count;
    if selected {
      SubsetSize(wanted + Elements(table), all);
      count' := AddAll(table, list, count, wanted);
    } else {
      assert wanted + {} == wanted;
    }
  }

  /** The selected tables' union; the caller guarantees room for all tables. */
  method CollectCalls(p: Platform, libs: Libs, list: array<nat>) returns (count: nat)
    requires |Tables(p)| <= list.Length
    modifies list
    ensures count <= list.Length && Collected(list[..count], Routed(p, libs))
  {
    ghost var all := Tables(p);
    ghost var io := if libs.io then Elements(p.io) else {};
    ghost var net := if libs.net then Elements(p.net) else {};
    ghost var memory := if libs.memory then Elements(p.memory) else {};
    count := AddSelected(libs.io, p.io, list, 0, {}, all);
    assert {} + io == io;
    count := AddSelected(libs.net, p.net, list, count, io, all);
    count := AddSelected(libs.memory, p.memory, list, count, io + net, all);
    count := AddSelected(libs.process, p.process, list, count, io + net + memory, all);
  }

  /** Swap-removes sendmsg, which gets a block of its own. */
  method TakeSendmsg(sendmsg: nat, list: array<nat>, count: nat, ghost wanted: set<nat>) returns (handover: bool, count': nat)
    requires count <= list.Length && Collected(list[..count], wanted)
    modifies list
    ensures count' <= count && (handover <==> sendmsg in wanted)
    ensures Collected(list[..count'], wanted - {sendmsg})
  {
    handover, count' := false, count;
    var index := 0;
    while index < count
      invariant index <= count && sendmsg !in list[..index]
    {
      if list[index] == sendmsg {
        ghost var before := list[..count];
        assert before[index] == sendmsg;
        list[index] := list[count - 1];
        count' := count - 1;
        assert list[..count'] == before[index := before[count']][..count'];
        forall nr ensures nr in list[..count'] <==> nr in before && nr != sendmsg {
          if nr in before && nr != sendmsg {
            var j :| 0 <= j < count && before[j] == nr;
            assert list[..count'][if j == count' then index else j] == nr;
          }
        }
        return true, count';
      }
      index := index + 1;
    }
    assert list[..index] == list[..count];
  }

  /** Writes consecutive instructions. */
  method Emit(out: array<Instruction>, length: nat, instructions: seq<Instruction>) returns (length': nat)
    requires length + |instructions| <= out.Length
    modifies out
    ensures length' == length + |instructions|
    ensures out[..length'] == old(out[..length]) + instructions
  {
    length' := length;
    var i := 0;
    while i < |instructions|
      invariant i <= |instructions| && length' == length + i
      invariant out[..length'] == old(out[..length]) + instructions[..i]
    {
      out[length'] := instructions[i];
      length' := length' + 1;
      i := i + 1;
      assert instructions[..i] == instructions[..i - 1] + [instructions[i - 1]];
      assert out[..length'] == out[..length' - 1] + [instructions[i - 1]];
    }
    assert instructions[..i] == instructions;
  }

  /**
   * The compiled filter, for every library set, descriptor and record: it returns inside the
   * program, notifies exactly the routed calls, every jump fits its byte, and its length is the
   * number of calls plus a fixed part of at most fifteen.
   */
  lemma FilterIsMembership(p: Platform, libs: Libs, handoverFd: int, handover: bool, calls: seq<nat>)
    requires IsPlatform(p) && |calls| <= MAX_FILTER && Collected(calls, Routed(p, libs) - {p.sendmsg})
    requires handover <==> p.sendmsg in Routed(p, libs)
    ensures var program := Program(p, handoverFd, handover, calls);
            && Encodable(program) && |calls| < |program| <= |calls| + 15
            && forall data | IsData(data) ::
                 Run(program, 0, 0, data) == Verdict(if Notified(p, libs, handoverFd, data) then UserNotif else Allow)
  {
    var program := Program(p, handoverFd, handover, calls);
    forall i | 0 <= i < |calls| ensures calls[i] < TWO32 {
      assert calls[i] in calls;
      RoutedIsNative(p, libs, calls[i]);
    }
    forall data | IsData(data)
      ensures Run(program, 0, 0, data) == Verdict(if Notified(p, libs, handoverFd, data) then UserNotif else Allow)
    {
      ProgramDecides(p, libs, handoverFd, handover, calls, data);
    }
  }

  /** One test per call, each jumping over the rest of the chain onto the final USER_NOTIF. */
  method EmitChain(out: array<Instruction>, length: nat, list: array<nat>, count: nat) returns (length': nat)
    requires count <= list.Length && length + count <= out.Length
    modifies out
    ensures length' == length + count
    ensures out[..length'] == old(out[..length]) + Chain(list[..count], count)
  {
    ghost var calls := list[..count];
    length' := length;
    var index := 0;
    while index < count
      invariant index <= count && length' == length + index
      invariant out[..length'] == old(out[..length]) + Chain(calls, index)
    {
      ghost var before := out[..length'];
      out[length'] := JumpIfEqual(list[index] % TWO32, (count - index) % 256, 0);
      length' := length' + 1;
      index := index + 1;
      assert out[..length'] == before + [out[length' - 1]];
      assert Chain(calls, index) == Chain(calls, index - 1) + [out[length' - 1]];
    }
  }

  /** Emits the whole program in order. */
  method WriteProgram(p: Platform, handoverFd: int, handover: bool, list: array<nat>, count: nat,
                      out: array<Instruction>) returns (length: nat)
    requires count <= list.Length && count + 15 <= out.Length
    modifies out
    ensures count < length <= count + 15
    ensures out[..length] == Program(p, handoverFd, handover, list[..count])
  {
    length := Emit(out, 0, Prologue(p));
    if handover {
      length := Emit(out, length, HandoverBlock(p, handoverFd));
    }
    ghost var head := Prologue(p) + if handover then HandoverBlock(p, handoverFd) else [];
    assert out[..length] == head;
    length := EmitChain(out, length, list, count);
    length := Emit(out, length, [Return(Allow), Return(UserNotif)]);
  }

  /**
   * Compiles the filter, or writes nothing when it may not fit. For every library set,
   * descriptor and record the program returns inside itself and notifies exactly the routed
   * calls; every jump fits its byte.
   */
  method BuildFilter(p: Platform, libs: Libs, handoverFd: int, out: array<Instruction>, capacity: nat) returns (length: nat)
    requires IsPlatform(p) && |Tables(p)| <= MAX_FILTER && capacity <= out.Length
    modifies out
    ensures length <= capacity
    ensures length == 0 <==> |Routed(p, libs) - {p.sendmsg}| + 16 > capacity
    ensures length == 0 ==> out[..] == old(out[..])
    ensures length > 0 ==> Encodable(out[..length])
    ensures length > 0 ==> forall data | IsData(data) ::
              Run(out[..length], 0, 0, data) == Verdict(if Notified(p, libs, handoverFd, data) then UserNotif else Allow)
  {
    var list := new nat[MAX_FILTER];
    var count := CollectCalls(p, libs, list);
    var handover;
    handover, count := TakeSendmsg(p.sendmsg, list, count, Routed(p, libs));
    ghost var calls := list[..count];
    CollectedSize(calls, Routed(p, libs) - {p.sendmsg});
    if count + 16 > capacity {
      return 0;
    }
    length := WriteProgram(p, handoverFd, handover, list, count, out);
    FilterIsMembership(p, libs, handoverFd, handover, calls);
  }
}
