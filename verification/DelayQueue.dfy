/**
 * The queue of notifications held back until they are due: a fixed array, unordered, from which an
 * entry is removed by moving the last one into its place.
 */
module DelayQueue {
  import opened Options

  /** Capacity (CHAOS_INIT_MAX_DELAYED). */
  const MAX_DELAYED: nat := 1024

  /** A system call as its raw registers name it: thread, number and arguments. */
  datatype Call = Call(tid: int, nr: int, args: seq<nat>)

  datatype Action = Pass | Fail | Return | Delay

  datatype Verdict = Verdict(action: Action, error: int, hasValue: bool, value: int, delay: nat)

  /** What a DELAY verdict turns into when due. */
  function DelayAnswer(verdict: Verdict): (answer: Verdict)
    ensures answer.action != Delay
  {
    var action := if verdict.error != 0 then Fail else if verdict.hasValue then Return else Pass;
    verdict.(action := action, delay := 0)
  }

  /**
   * A parked notification. `arrived` and `delay` say since when and for how long it is held; the
   * program keeps only the due time made of them.
   */
  datatype Entry = Entry(id: nat, call: Call, due: nat, answer: Verdict, arrived: real, delay: nat)

  type Parked = seq<Entry>

  // ---- The queue as a sequence -------------------------------------------------------------

  /** The first entry of a call. */
  function IndexOf(parked: Parked, call: Call, from: nat): (index: Option<nat>)
    requires from <= |parked|
    ensures index.Some? ==> from <= index.value < |parked| && parked[index.value].call == call
    ensures index.Some? ==> forall i | from <= i < index.value :: parked[i].call != call
    ensures index.None? ==> forall i | from <= i < |parked| :: parked[i].call != call
    decreases |parked| - from
  {
    if from == |parked| then None
    else if parked[from].call == call then Some(from)
    else IndexOf(parked, call, from + 1)
  }

  /** The first entry due at a time. */
  function FirstDue(parked: Parked, now: nat, from: nat): (index: Option<nat>)
    requires from <= |parked|
    ensures index.Some? ==> from <= index.value < |parked| && parked[index.value].due <= now
    ensures index.None? ==> forall i | from <= i < |parked| :: parked[i].due > now
    decreases |parked| - from
  {
    if from == |parked| then None
    else if parked[from].due <= now then Some(from)
    else FirstDue(parked, now, from + 1)
  }

  /** The queue without entry `i`; the last entry takes its place. */
  function SwapRemove(parked: Parked, i: nat): (left: Parked)
    requires i < |parked|
    ensures |left| + 1 == |parked|
  {
    parked[i := parked[|parked| - 1]][..|parked| - 1]
  }

  lemma SwapRemoveTakesOne(parked: Parked, i: nat)
    requires i < |parked|
    ensures multiset(SwapRemove(parked, i)) == multiset(parked) - multiset{parked[i]}
  {
    var last := |parked| - 1;
    var swapped := parked[i := parked[last]];
    assert swapped[last] == parked[last];
    assert swapped == swapped[..last] + [parked[last]];
    var rest := multiset(parked) - multiset{parked[i]};
    assert multiset(swapped) == rest + multiset{parked[last]};
    assert multiset(swapped[..last]) == multiset(swapped) - multiset{parked[last]} == rest;
  }

  /** The earliest due time; nothing when the queue is empty. */
  ghost predicate IsEarliest(parked: Parked, due: Option<nat>) {
    match due
    case None => parked == []
    case Some(d) => (exists i :: 0 <= i < |parked| && parked[i].due == d) && forall i | 0 <= i < |parked| :: d <= parked[i].due
  }

  // ---- The queue as an array ---------------------------------------------------------------

  class Queue {
    const entries: array<Entry>
    var count: nat

    ghost predicate Valid()
      reads this
    {
      entries.Length == MAX_DELAYED && count <= MAX_DELAYED
    }

    ghost function Contents(): Parked
      requires Valid()
      reads this, entries
    {
      entries[..count]
    }

    constructor ()
      ensures Valid() && Contents() == [] && fresh(entries)
    {
      var blank := Entry(0, Call(0, 0, []), 0, Verdict(Pass, 0, false, 0, 0), 0.0, 0);
      entries := new Entry[MAX_DELAYED](_ => blank);
      count := 0;
    }

    /** Parks an entry, unless the queue is full. */
    method Add(entry: Entry) returns (ok: bool)
      requires Valid()
      modifies this`count, entries
      ensures Valid() && (ok <==> |old(Contents())| < MAX_DELAYED)
      ensures Contents() == if ok then old(Contents()) + [entry] else old(Contents())
    {
      if count == MAX_DELAYED {
        return false;
      }
      ghost var before := entries[..count];
      entries[count] := entry;
      count := count + 1;
      assert entries[..count] == before + [entry];
      return true;
    }

    /** Gives a parked call that was notified again its new id. */
    method Resume(call: Call, id: nat) returns (found: bool)
      requires Valid()
      modifies entries
      ensures Valid() && (found <==> IndexOf(old(Contents()), call, 0).Some?)
      ensures var before := old(Contents());
              var index := IndexOf(before, call, 0);
              Contents() == if index.Some? then before[index.value := before[index.value].(id := id)] else before
    {
      ghost var before := entries[..count];
      var index := 0;
      while index < count
        invariant index <= count && entries[..count] == before
        invariant IndexOf(before, call, 0) == IndexOf(before, call, index)
      {
        if entries[index].call == call {
          assert before[index] == entries[index];
          entries[index] := entries[index].(id := id);
          return true;
        }
        assert before[index] == entries[index];
        index := index + 1;
      }
      return false;
    }

    /** The earliest due time. */
    method Next() returns (due: Option<nat>)
      requires Valid()
      ensures IsEarliest(Contents(), due)
    {
      if count == 0 {
        return None;
      }
      var earliest := entries[0].due;
      var index := 1;
      assert Contents()[0].due == earliest;
      while index < count
        invariant 1 <= index <= count
        invariant exists i :: 0 <= i < index && Contents()[i].due == earliest
        invariant forall i | 0 <= i < index :: earliest <= Contents()[i].due
      {
        assert Contents()[index] == entries[index];
        if entries[index].due < earliest {
          earliest := entries[index].due;
        }
        index := index + 1;
      }
      return Some(earliest);
    }

    /** Takes out one entry that is due. */
    method Pop(now: nat) returns (popped: Option<Entry>)
      requires Valid()
      modifies this`count, entries
      ensures Valid()
      ensures var before := old(Contents());
              match FirstDue(before, now, 0)
              case None => popped.None? && Contents() == before
              case Some(i) => popped == Some(before[i]) && Contents() == SwapRemove(before, i)
    {
      ghost var before := entries[..count];
      var index := 0;
      while index < count
        invariant index <= count && entries[..count] == before
        invariant FirstDue(before, now, 0) == FirstDue(before, now, index)
      {
        assert before[index] == entries[index];
        if entries[index].due <= now {
          popped := Some(entries[index]);
          count := count - 1;
          entries[index] := entries[count];
          assert entries[..count] == SwapRemove(before, index);
          return;
        }
        index := index + 1;
      }
      return None;
    }
  }
}
