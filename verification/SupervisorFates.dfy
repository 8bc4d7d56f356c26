/**
 * What becomes of each notification, told by its event alone: who is dropped, who is held back and for
 * how long, who is answered and with what; and when the timer and the writes of hits come.
 */
module SupervisorFates {
  import opened DelayQueue
  import opened Options
  import opened Supervisor

  /** The reply a verdict asks for, once its delay is over or had to be dropped. */
  ghost predicate Meant(verdict: Verdict, response: Response) {
    match verdict.action
    case Pass => response == Continue
    case Fail => response == Error(-verdict.error)
    case Return => response == Value(verdict.value)
    case Delay =>
      if verdict.error != 0 then response == Error(-verdict.error)
      else if verdict.hasValue then response == Value(verdict.value)
      else response == Continue
  }

  /** The decided call was found withdrawn; a call that passes is not asked about. */
  ghost predicate Withdrawn(e: Event) {
    e.Notified? && e.verdict.action != Pass && e.gone
  }

  ghost predicate IsParked(s: State, call: Call) {
    exists i :: 0 <= i < |s.parked| && s.parked[i].call == call
  }

  ghost predicate Delays(s: State, e: Event) {
    e.Notified? && e.verdict.action == Delay && !Withdrawn(e) && |s.parked| < 1024
  }

  /** The entry holds the event's call back for its delay, by a clock that ticks in milliseconds. */
  ghost predicate HeldFor(entry: Entry, e: Event) {
    && e.Notified? && entry.call == e.call && entry.arrived == e.arrived && entry.delay == e.verdict.delay
    && e.arrived + e.verdict.delay as real < entry.due as real <= e.clock + e.verdict.delay as real + 1.0
  }

  /** Every reply the entry gets when it falls due is the one its event's verdict meant. */
  ghost predicate AnswersAs(entry: Entry, verdict: Verdict) {
    forall at :: var reply := DueReply(entry, at);
      && reply.id == entry.id && reply.at == at && reply.held == Some((entry.arrived, entry.delay))
      && Meant(verdict, reply.response)
  }

  /**
   * A call that is not parked already is dropped if and only if its verdict is not PASS and its caller
   * is gone; held back if and only if its verdict is DELAY, it is not dropped and there is room; and
   * otherwise answered at once. Whatever happens, nothing else changes.
   */
  lemma EventDecidesFate(s: State, e: Event)
    requires e.Notified? && Timely(s, e) && !IsParked(s, e.call)
    ensures var t := Next(s, e);
            && t.received == s.received + [e.id] && t.superseded == s.superseded && t.clock == e.clock
            && t.lastFlush == s.lastFlush && t.timer == s.timer
            && t.dropped == (if Withdrawn(e) then s.dropped + [e.id] else s.dropped)
            && (if Delays(s, e)
                then |t.parked| == |s.parked| + 1 && t.parked[..|s.parked|] == s.parked
                     && var entry := t.parked[|s.parked|];
                        entry.id == e.id && HeldFor(entry, e) && AnswersAs(entry, e.verdict)
                else t.parked == s.parked)
            && (if !Withdrawn(e) && !Delays(s, e)
                then |t.replies| == |s.replies| + 1 && t.replies[..|s.replies|] == s.replies
                     && var reply := t.replies[|s.replies|];
                        reply.id == e.id && reply.at == e.clock && reply.held == None && Meant(e.verdict, reply.response)
                else t.replies == s.replies)
  {
    NotFound(s, e.call);
    ParkedLongEnough(e);
  }

  lemma NotFound(s: State, call: Call)
    requires !IsParked(s, call)
    ensures IndexOf(s.parked, call, 0).None?
  {
  }

  lemma Found(s: State, call: Call)
    requires IsParked(s, call)
    ensures IndexOf(s.parked, call, 0).Some?
  {
  }

  // ---- Over runs ---------------------------------------------------------------------------

  /** Event j held the call back that event i, the same one or a later restart, was notified as `id`. */
  ghost predicate HeldBack(states: seq<State>, events: seq<Event>, j: nat, i: nat, entry: Entry)
    requires |states| == |events| + 1
  {
    && j <= i < |events| && Delays(states[j], events[j]) && HeldFor(entry, events[j])
    && AnswersAs(entry, events[j].verdict)
    && events[i].Notified? && events[i].id == entry.id && events[i].call == entry.call
  }

  ghost predicate HeldBackBefore(states: seq<State>, events: seq<Event>, k: nat, entry: Entry)
    requires |states| == |events| + 1
  {
    exists j: nat, i: nat :: i < k && HeldBack(states, events, j, i, entry)
  }

  ghost predicate AllHeldBack(states: seq<State>, events: seq<Event>, k: nat)
    requires |states| == |events| + 1 && k < |states|
  {
    forall n | 0 <= n < |states[k].parked| :: HeldBackBefore(states, events, k, states[k].parked[n])
  }

  lemma HeldBackLater(states: seq<State>, events: seq<Event>, k: nat, entry: Entry)
    requires |states| == |events| + 1 && HeldBackBefore(states, events, k, entry)
    ensures HeldBackBefore(states, events, k + 1, entry)
  {
    var j: nat, i: nat :| i < k && HeldBack(states, events, j, i, entry);
  }

  /** A restarted call stays what its first notification made of it. */
  lemma HeldBackAgain(states: seq<State>, events: seq<Event>, k: nat, entry: Entry)
    requires |states| == |events| + 1 && k < |events| && HeldBackBefore(states, events, k, entry)
    requires events[k].Notified? && events[k].call == entry.call
    ensures HeldBackBefore(states, events, k + 1, entry.(id := events[k].id))
  {
    var j: nat, i: nat :| i < k && HeldBack(states, events, j, i, entry);
    var again := entry.(id := events[k].id);
    forall at ensures Meant(events[j].verdict, DueReply(again, at).response) {
      assert DueReply(again, at).response == DueReply(entry, at).response;
    }
    assert HeldBack(states, events, j, k, again);
  }

  lemma StepAt(states: seq<State>, events: seq<Event>, k: nat)
    requires IsRun(states, events) && k < |events|
    ensures |states| == |events| + 1 && Inv(states[k])
    ensures Timely(states[k], events[k]) && states[k + 1] == Next(states[k], events[k])
  {
    RunKeepsInv(states, events, k);
  }

  lemma NotifiedHolds(states: seq<State>, events: seq<Event>, k: nat)
    requires IsRun(states, events) && k < |events| && events[k].Notified? && AllHeldBack(states, events, k)
    ensures AllHeldBack(states, events, k + 1)
  {
    hide HeldBackBefore, Inv, DueReply, HeldFor, AnswersAs, IsRun, Next;
    StepAt(states, events, k);
    var s, e, t := states[k], events[k], states[k + 1];
    forall n | 0 <= n < |s.parked| ensures HeldBackBefore(states, events, k + 1, s.parked[n]) {
      HeldBackLater(states, events, k, s.parked[n]);
    }
    if IsParked(s, e.call) {
      Found(s, e.call);
      var index := IndexOf(s.parked, e.call, 0).value;
      Rebinds(s, e);
      HeldBackAgain(states, events, k, s.parked[index]);
    } else {
      EventDecidesFate(s, e);
      if Delays(s, e) {
        NewlyHeld(states, events, k, t.parked[|s.parked|]);
        assert forall n | 0 <= n < |s.parked| :: t.parked[n] == t.parked[..|s.parked|][n];
      }
    }
  }

  lemma NewlyHeld(states: seq<State>, events: seq<Event>, k: nat, entry: Entry)
    requires |states| == |events| + 1 && k < |events| && Delays(states[k], events[k])
    requires entry.id == events[k].id && HeldFor(entry, events[k]) && AnswersAs(entry, events[k].verdict)
    ensures HeldBackBefore(states, events, k + 1, entry)
  {
    hide AnswersAs;
    assert HeldBack(states, events, k, k, entry);
  }

  lemma Rebinds(s: State, e: Event)
    requires e.Notified? && e.clock >= 0.0 && IndexOf(s.parked, e.call, 0).Some?
    ensures var index := IndexOf(s.parked, e.call, 0).value;
            && index < |s.parked| && s.parked[index].call == e.call
            && Next(s, e).parked == s.parked[index := s.parked[index].(id := e.id)]
            && Next(s, e).replies == s.replies && Next(s, e).dropped == s.dropped
  {
  }

  lemma TimerLeaves(s: State, e: Event)
    requires e.Timer? && e.clock >= 0.0
    ensures forall p | p in Next(s, e).parked :: p in s.parked
  {
    hide Drain, Millis, Earliest, Arm;
    DrainLeavesUndue(s.parked, s.replies, Millis(e.clock), e.clock);
  }

  lemma TimerHolds(states: seq<State>, events: seq<Event>, k: nat)
    requires IsRun(states, events) && k < |events| && events[k].Timer? && AllHeldBack(states, events, k)
    ensures AllHeldBack(states, events, k + 1)
  {
    hide HeldBackBefore, Inv, IsRun, Millis;
    StepAt(states, events, k);
    var s, e, t := states[k], events[k], states[k + 1];
    TimerLeaves(s, e);
    hide Next;
    forall n | 0 <= n < |t.parked| ensures HeldBackBefore(states, events, k + 1, t.parked[n]) {
      assert t.parked[n] in t.parked;
      var m :| 0 <= m < |s.parked| && s.parked[m] == t.parked[n];
      HeldBackLater(states, events, k, s.parked[m]);
    }
  }

  /** Every parked call was held back by an event of the run, and stays due as that event said. */
  lemma {:induction false} ParkedWereHeldBack(states: seq<State>, events: seq<Event>, k: nat)
    requires IsRun(states, events) && k < |states|
    ensures AllHeldBack(states, events, k)
  {
    if k > 0 {
      ParkedWereHeldBack(states, events, k - 1);
      hide AllHeldBack, IsRun;
      if events[k - 1].Notified? {
        NotifiedHolds(states, events, k - 1);
      } else {
        TimerHolds(states, events, k - 1);
      }
    }
  }

  /** Where a reply comes from: an event answered at once, or the entry of one held back, when it fell due. */
  ghost predicate AnsweredAtOnce(states: seq<State>, events: seq<Event>, j: nat, reply: Reply)
    requires |states| == |events| + 1
  {
    && j < |events| && events[j].Notified? && !Withdrawn(events[j]) && !Delays(states[j], events[j])
    && reply.id == events[j].id && reply.at == events[j].clock && reply.held == None
    && Meant(events[j].verdict, reply.response)
  }

  ghost predicate AnsweredWhenDue(states: seq<State>, events: seq<Event>, m: nat, entry: Entry, reply: Reply)
    requires |states| == |events| + 1
  {
    && m < |events| && events[m].Timer? && reply.at == events[m].clock && entry.due as real <= reply.at
    && HeldBackBefore(states, events, m, entry) && reply == DueReply(entry, reply.at)
  }

  ghost predicate Accounted(states: seq<State>, events: seq<Event>, k: nat, reply: Reply)
    requires |states| == |events| + 1
  {
    || (exists j: nat :: j < k && AnsweredAtOnce(states, events, j, reply))
    || (exists m: nat, entry: Entry :: m < k && AnsweredWhenDue(states, events, m, entry, reply))
  }

  lemma AccountedLater(states: seq<State>, events: seq<Event>, k: nat, reply: Reply)
    requires |states| == |events| + 1 && Accounted(states, events, k, reply)
    ensures Accounted(states, events, k + 1, reply)
  {
    hide AnsweredAtOnce, AnsweredWhenDue;
    if j: nat :| j < k && AnsweredAtOnce(states, events, j, reply) {
    } else {
      var m: nat, entry: Entry :| m < k && AnsweredWhenDue(states, events, m, entry, reply);
    }
  }

  lemma NotifiedAnswers(states: seq<State>, events: seq<Event>, k: nat, reply: Reply)
    requires IsRun(states, events) && k < |events| && events[k].Notified?
    requires reply in states[k + 1].replies && reply !in states[k].replies
    ensures AnsweredAtOnce(states, events, k, reply)
  {
    hide Inv, IsRun, HeldFor, AnswersAs, Next;
    StepAt(states, events, k);
    var s, e := states[k], events[k];
    if IsParked(s, e.call) {
      Found(s, e.call);
      Rebinds(s, e);
    } else {
      EventDecidesFate(s, e);
      NewMember(s.replies, states[k + 1].replies, reply);
    }
  }

  lemma NewMember(replies: seq<Reply>, longer: seq<Reply>, reply: Reply)
    requires reply in longer && reply !in replies
    requires longer == replies || (|longer| == |replies| + 1 && longer[..|replies|] == replies)
    ensures |longer| == |replies| + 1 && longer[|replies|] == reply
  {
    if longer != replies {
      assert longer == replies + [longer[|replies|]];
    }
  }

  lemma TimerAnswers(states: seq<State>, events: seq<Event>, k: nat, reply: Reply) returns (entry: Entry)
    requires IsRun(states, events) && k < |events| && events[k].Timer?
    requires reply in states[k + 1].replies && reply !in states[k].replies
    ensures AnsweredWhenDue(states, events, k, entry, reply)
  {
    hide Inv, IsRun, Next, HeldBackBefore, DueReply;
    StepAt(states, events, k);
    ParkedWereHeldBack(states, events, k);
    var s, e := states[k], events[k];
    entry := TimerTakes(s, e, reply);
    var m :| 0 <= m < |s.parked| && s.parked[m] == entry;
  }

  lemma TimerTakes(s: State, e: Event, reply: Reply) returns (entry: Entry)
    requires e.Timer? && e.clock >= 0.0 && reply in Next(s, e).replies && reply !in s.replies
    ensures entry in s.parked && reply == DueReply(entry, e.clock) && reply.at == e.clock && entry.due as real <= e.clock
  {
    var now := Millis(e.clock);
    var taken := DrainAnswersDue(s.parked, s.replies, now, e.clock);
    hide Drain, Earliest, Arm, Respond, DueReplies;
    entry := NewlyDue(s.replies, taken, e.clock, reply);
    assert entry in multiset(taken);
    assert entry in multiset(s.parked);
  }

  lemma NewlyDue(replies: seq<Reply>, taken: Parked, at: real, reply: Reply) returns (entry: Entry)
    requires reply in replies + DueReplies(taken, at) && reply !in replies
    ensures entry in taken && reply == DueReply(entry, at)
  {
    hide DueReply;
    var n :| 0 <= n < |taken| && DueReplies(taken, at)[n] == reply;
    entry := taken[n];
  }

  /**
   * Every reply of a run is accounted for: sent at once for an event that was neither withdrawn nor to
   * be held back, or sent when due for one that was held back; in both cases with the effect the
   * event's verdict meant.
   */
  lemma {:induction false} RepliesAreAccounted(states: seq<State>, events: seq<Event>, k: nat, reply: Reply)
    requires IsRun(states, events) && k < |states| && reply in states[k].replies
    ensures Accounted(states, events, k, reply)
  {
    hide AnsweredAtOnce, AnsweredWhenDue, Inv, Next;
    if k > 0 {
      if reply in states[k - 1].replies {
        RepliesAreAccounted(states, events, k - 1, reply);
        AccountedLater(states, events, k - 1, reply);
      } else if events[k - 1].Notified? {
        NotifiedAnswers(states, events, k - 1, reply);
      } else {
        var entry := TimerAnswers(states, events, k - 1, reply);
      }
    }
  }

  /** A notification is dropped only when its caller was gone and its verdict was not PASS. */
  lemma {:induction false} DroppedWereWithdrawn(states: seq<State>, events: seq<Event>, k: nat, id: nat) returns (j: nat)
    requires IsRun(states, events) && k < |states| && id in states[k].dropped
    ensures j < k && Withdrawn(events[j]) && events[j].id == id
  {
    assert k > 0;
    if id in states[k - 1].dropped {
      j := DroppedWereWithdrawn(states, events, k - 1, id);
    } else {
      hide Inv, IsRun, HeldFor, AnswersAs, Meant, Drain;
      StepAt(states, events, k - 1);
      j := k - 1;
      var s, e := states[j], events[j];
      if e.Notified? && !IsParked(s, e.call) {
        EventDecidesFate(s, e);
      } else if e.Notified? {
        Found(s, e.call);
      }
    }
  }

  // ---- The timer and the writes of hits ------------------------------------------------------

  /**
   * The timer is not set earlier than needed: it is the due time of a parked call or the time of the
   * next write of hits, or the next millisecond when that write is overdue.
   */
  lemma TimerHasAReason(s: State, e: Event)
    requires e.Timer? && e.clock >= 0.0
    ensures var t := Next(s, e);
            var (now, flush) := (Millis(e.clock), t.lastFlush + 100);
            t.timer.Some? ==>
              || (exists p :: p in t.parked && (if p.due > now then t.timer == Some(p.due) else t.timer == Some(now + 1)))
              || (e.stillPending && t.timer == Some(if flush > now then flush else now + 1))
  {
    hide Drain, Millis;
    var t := Next(s, e);
    var due := Earliest(t.parked);
    if due.Some? {
      var i :| 0 <= i < |t.parked| && t.parked[i].due == due.value;
      assert t.parked[i] in t.parked;
    }
  }

  /** Hits that wait are written at once, unless the last write is less than 100 ms ago. */
  lemma FlushesAreSpaced(s: State, e: Event)
    requires e.Timer? && Timely(s, e) && s.lastFlush as real <= s.clock
    ensures var t, now := Next(s, e), Millis(e.clock);
            && (t.lastFlush == s.lastFlush || (e.pending && t.lastFlush == now && now >= s.lastFlush + 100))
            && (e.pending ==> now < t.lastFlush + 100)
  {
    hide Drain, Earliest, Arm;
  }
}
