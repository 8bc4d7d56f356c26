/** The supervisor's event loop over the array queue: each step does what the state machine says. */
module SupervisorLoop {
  import opened DelayQueue
  import opened Options
  import opened Supervisor

  class Loop {
    const queue: Queue
    var replies: seq<Reply>
    var lastFlush: nat
    var timer: Option<nat>
    ghost var received: seq<nat>
    ghost var dropped: seq<nat>
    ghost var superseded: seq<nat>
    ghost var clock: real

    ghost predicate Valid()
      reads this, queue
    {
      queue.Valid()
    }

    /** The state machine's view. */
    ghost function Abstract(): State
      requires Valid()
      reads this, queue, queue.entries
    {
      State(queue.Contents(), replies, received, dropped, superseded, clock, lastFlush, timer)
    }

    constructor ()
      ensures Valid() && Abstract() == INITIAL && fresh(queue) && fresh(queue.entries)
    {
      queue := new Queue();
      replies, lastFlush, timer := [], 0, None;
      received, dropped, superseded, clock := [], [], [], 0.0;
    }

    /** Sends the reply to a notification. */
    method Send(id: nat, verdict: Verdict, at: real, held: Option<(real, nat)>)
      modifies this`replies
      ensures replies == old(replies) + [Reply(id, Respond(verdict), at, held)]
    {
      replies := replies + [Reply(id, Respond(verdict), at, held)];
    }

    /** Answers one notification, or parks it. */
    method AnswerNotification(id: nat, call: Call, verdict: Verdict, gone: bool, arrived: real, now: real)
      requires Valid() && now >= 0.0
      modifies this, queue`count, queue.entries
      ensures Valid() && Abstract() == Answer(old(Abstract()), Notified(id, call, verdict, gone, arrived, now))
    {
      hide DelayAnswer, Respond, Millis;
      ghost var before := queue.Contents();
      received, clock := received + [id], now;
      var found := queue.Resume(call, id);
      if found {
        superseded := superseded + [before[IndexOf(before, call, 0).value].id];
        return;
      }
      if !verdict.action.Pass? && gone {
        dropped := dropped + [id];
        return;
      }
      var reply := verdict;
      if verdict.action.Delay? {
        reply := DelayAnswer(verdict);
        var ok := queue.Add(Entry(id, call, Millis(now) + verdict.delay + 1, reply, arrived, verdict.delay));
        if ok {
          return;
        }
      }
      Send(id, reply, now, None);
    }

    /** Answers every call that is due. */
    method AnswerDue(now: nat, at: real)
      requires Valid()
      modifies this`replies, queue`count, queue.entries
      ensures Valid() && (queue.Contents(), replies) == Drain(old(queue.Contents()), old(replies), now, at)
    {
      hide SwapRemove, Respond;
      while true
        invariant Valid()
        invariant Drain(queue.Contents(), replies, now, at) == Drain(old(queue.Contents()), old(replies), now, at)
        decreases queue.count
      {
        var popped := queue.Pop(now);
        if popped.None? {
          break;
        }
        Send(popped.value.id, popped.value.answer, at, Some((popped.value.arrived, popped.value.delay)));
      }
    }

    /**
     * Arms the timer for the earlier of the next due call and the next write of hits. The program
     * writes "nothing due" as due time 0, which no parked call has.
     */
    method Rearm(now: nat, stillPending: bool)
      requires Valid()
      modifies this`timer
      ensures timer == Arm(Earliest(queue.Contents()), stillPending, lastFlush, now)
    {
      hide Earliest;
      var due := queue.Next();
      EarliestIsUnique(queue.Contents(), due);
      if stillPending && (due.None? || lastFlush + FLUSH_INTERVAL < due.value) {
        due := Some(lastFlush + FLUSH_INTERVAL);
      }
      timer := if due.None? then None else if due.value > now then due else Some(now + 1);
    }

    /** Answers due calls, notes a write of hits, and arms the timer for what comes next. */
    method ServeTimer(at: real, pending: bool, stillPending: bool)
      requires Valid() && at >= 0.0 && lastFlush <= Millis(at)
      modifies this, queue`count, queue.entries
      ensures Valid() && Abstract() == OnTime(old(Abstract()), Timer(at, pending, stillPending))
    {
      hide Drain, Millis, Earliest, Arm;
      clock := at;
      var now := Millis(at);
      AnswerDue(now, at);
      if pending && now - lastFlush >= FLUSH_INTERVAL {
        lastFlush := now;
      }
      Rearm(now, stillPending);
    }
  }

  lemma EarliestIsUnique(parked: Parked, due: Option<nat>)
    requires IsEarliest(parked, due)
    ensures due == Earliest(parked)
  {
    var earliest := Earliest(parked);
    assert IsEarliest(parked, earliest);
  }
}
