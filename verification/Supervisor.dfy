/**
 * The seccomp supervisor as a state machine over its two steps: answering a notification and
 * serving the timer. Times are milliseconds; the supervisor's clock is the real time cut to a
 * whole number.
 */
module Supervisor {
  import opened DelayQueue
  import opened Options

  /** Least time between two writes of hits files (CHAOS_HITS_INTERVAL_MS). */
  const FLUSH_INTERVAL: nat := 100

  /** What a reply makes of the call: it runs, it fails, or it returns a value. */
  datatype Response = Continue | Error(code: int) | Value(value: int)

  /** A reply sent; a delayed one says since when and for how long its call was to be held. */
  datatype Reply = Reply(id: nat, response: Response, at: real, held: Option<(real, nat)>)

  /**
   * A notification with what the deciders made of it and whether it was found withdrawn; or the
   * timer with whether hits wait to be written, before and after writing.
   */
  datatype Event =
    | Notified(id: nat, call: Call, verdict: Verdict, gone: bool, arrived: real, clock: real)
    | Timer(clock: real, pending: bool, stillPending: bool)

  datatype State = State(
    parked: Parked,
    replies: seq<Reply>,
    received: seq<nat>,
    dropped: seq<nat>,
    superseded: seq<nat>,
    clock: real,
    lastFlush: nat,
    timer: Option<nat>)

  function Millis(clock: real): (ms: nat)
    requires clock >= 0.0
    ensures ms as real <= clock < (ms + 1) as real
  {
    clock.Floor
  }

  function Respond(verdict: Verdict): Response {
    if verdict.action.Fail? then Error(-verdict.error)
    else if verdict.action.Return? then Value(verdict.value)
    else Continue
  }

  // ---- Steps -------------------------------------------------------------------------------

  function Park(e: Event): (entry: Entry)
    requires e.Notified? && e.clock >= 0.0
  {
    Entry(e.id, e.call, Millis(e.clock) + e.verdict.delay + 1, DelayAnswer(e.verdict), e.arrived, e.verdict.delay)
  }

  /** One notification: bound to its parked call again, dropped, parked, or answered at once. */
  function Answer(s: State, e: Event): (t: State)
    requires e.Notified? && e.clock >= 0.0
  {
    var received := s.(received := s.received + [e.id], clock := e.clock);
    var index := IndexOf(s.parked, e.call, 0);
    if index.Some? then
      var bound := s.parked[index.value];
      received.(parked := s.parked[index.value := bound.(id := e.id)], superseded := s.superseded + [bound.id])
    else if !e.verdict.action.Pass? && e.gone then
      received.(dropped := s.dropped + [e.id])
    else if e.verdict.action.Delay? && |s.parked| < MAX_DELAYED then
      received.(parked := s.parked + [Park(e)])
    else
      var verdict := if e.verdict.action.Delay? then DelayAnswer(e.verdict) else e.verdict;
      received.(replies := s.replies + [Reply(e.id, Respond(verdict), e.clock, None)])
  }

  /** Answers due calls until none is left. */
  function Drain(parked: Parked, replies: seq<Reply>, now: nat, at: real): (r: (Parked, seq<Reply>))
    ensures |r.0| <= |parked|
    decreases |parked|
  {
    match FirstDue(parked, now, 0)
    case None => (parked, replies)
    case Some(i) =>
      var entry := parked[i];
      Drain(SwapRemove(parked, i), replies + [DueReply(entry, at)], now, at)
  }

  function DueReply(entry: Entry, at: real): Reply {
    Reply(entry.id, Respond(entry.answer), at, Some((entry.arrived, entry.delay)))
  }

  /** The earliest due time. */
  function Earliest(parked: Parked): (due: Option<nat>)
    ensures IsEarliest(parked, due)
  {
    if parked == [] then None
    else
      var last := parked[|parked| - 1];
      var rest := Earliest(parked[..|parked| - 1]);
      assert forall i | 0 <= i < |parked| - 1 :: parked[..|parked| - 1][i] == parked[i];
      if rest.Some? && rest.value <= last.due then
        var i :| 0 <= i < |parked| - 1 && parked[..|parked| - 1][i].due == rest.value;
        assert parked[i].due == rest.value;
        rest
      else
        assert parked[|parked| - 1].due == last.due;
        Some(last.due)
  }

  /** When to wake: the earliest due call or flush, but never in the past; nothing to wait for disarms. */
  function Arm(due: Option<nat>, stillPending: bool, lastFlush: nat, now: nat): Option<nat> {
    var flush := lastFlush + FLUSH_INTERVAL;
    var wake := if stillPending && (due.None? || flush < due.value) then Some(flush) else due;
    if wake.Some? then Some(if wake.value > now then wake.value else now + 1) else None
  }

  function OnTime(s: State, e: Event): (t: State)
    requires e.Timer? && e.clock >= 0.0
  {
    var now := Millis(e.clock);
    var drained := Drain(s.parked, s.replies, now, e.clock);
    var lastFlush := if e.pending && now >= s.lastFlush + FLUSH_INTERVAL then now else s.lastFlush;
    s.(parked := drained.0, replies := drained.1, clock := e.clock, lastFlush := lastFlush,
       timer := Arm(Earliest(drained.0), e.stillPending, lastFlush, now))
  }

  ghost predicate Timely(s: State, e: Event) {
    match e
    case Notified(_, _, _, _, arrived, clock) => 0.0 <= s.clock <= arrived <= clock
    case Timer(clock, _, _) => 0.0 <= s.clock <= clock
  }

  function Next(s: State, e: Event): (t: State)
    requires e.clock >= 0.0
  {
    if e.Notified? then Answer(s, e) else OnTime(s, e)
  }

  // ---- The invariant -----------------------------------------------------------------------

  function EntryIds(parked: Parked): (ids: seq<nat>)
    ensures |ids| == |parked| && forall i | 0 <= i < |parked| :: ids[i] == parked[i].id
  {
    seq(|parked|, i requires 0 <= i < |parked| => parked[i].id)
  }

  function ReplyIds(replies: seq<Reply>): (ids: seq<nat>)
    ensures |ids| == |replies| && forall i | 0 <= i < |replies| :: ids[i] == replies[i].id
  {
    seq(|replies|, i requires 0 <= i < |replies| => replies[i].id)
  }

  /** Every notification received is parked, answered, dropped, or bound again under a new id. */
  ghost predicate Conserved(s: State) {
    multiset(s.received) ==
    multiset(EntryIds(s.parked)) + multiset(ReplyIds(s.replies)) + multiset(s.dropped) + multiset(s.superseded)
  }

  ghost predicate NoTwins(parked: Parked) {
    forall i, j | 0 <= i < j < |parked| :: parked[i].call != parked[j].call
  }

  /** An entry is due later than it must be held, and is not held again when answered. */
  ghost predicate WellParked(entry: Entry) {
    && entry.due as real > entry.arrived + entry.delay as real
    && entry.due > 0 && !entry.answer.action.Delay?
  }

  ghost predicate AllWellParked(parked: Parked) {
    forall i | 0 <= i < |parked| :: WellParked(parked[i])
  }

  ghost predicate NotEarly(reply: Reply) {
    reply.held.Some? ==> reply.at > reply.held.value.0 + reply.held.value.1 as real
  }

  ghost predicate NoneEarly(replies: seq<Reply>) {
    forall i | 0 <= i < |replies| :: NotEarly(replies[i])
  }

  ghost predicate Inv(s: State) {
    && |s.parked| <= MAX_DELAYED && NoTwins(s.parked) && AllWellParked(s.parked) && NoneEarly(s.replies)
    && Conserved(s) && s.clock >= 0.0 && s.lastFlush as real <= s.clock
  }

  // ---- Notifications keep it ---------------------------------------------------------------

  lemma IdsSnoc(parked: Parked, entry: Entry)
    ensures EntryIds(parked + [entry]) == EntryIds(parked) + [entry.id]
  {
  }

  lemma ReplyIdsSnoc(replies: seq<Reply>, reply: Reply)
    ensures ReplyIds(replies + [reply]) == ReplyIds(replies) + [reply.id]
  {
  }

  lemma RebindIds(parked: Parked, i: nat, id: nat)
    requires i < |parked|
    ensures multiset(EntryIds(parked[i := parked[i].(id := id)])) + multiset{parked[i].id} ==
            multiset(EntryIds(parked)) + multiset{id}
  {
    assert EntryIds(parked[i := parked[i].(id := id)]) == EntryIds(parked)[i := id];
  }

  /** The whole-number clock runs up to a millisecond late; the extra one makes up for it. */
  lemma ParkedLongEnough(e: Event)
    requires e.Notified? && 0.0 <= e.arrived <= e.clock
    ensures WellParked(Park(e))
  {
  }

  lemma AnswerKeepsEntries(s: State, e: Event)
    requires Inv(s) && e.Notified? && Timely(s, e)
    ensures var t := Answer(s, e);
            |t.parked| <= MAX_DELAYED && NoTwins(t.parked) && AllWellParked(t.parked) && NoneEarly(t.replies)
  {
    ParkedLongEnough(e);
  }

  lemma Rebalance(received: multiset<nat>, parked: multiset<nat>, parked': multiset<nat>, others: multiset<nat>,
                  superseded: multiset<nat>, id: nat, bound: nat)
    requires received == parked + others + superseded && parked' + multiset{bound} == parked + multiset{id}
    ensures received + multiset{id} == parked' + others + (superseded + multiset{bound})
  {
    forall x ensures (received + multiset{id})[x] == (parked' + others + (superseded + multiset{bound}))[x] {
      assert (parked' + multiset{bound})[x] == (parked + multiset{id})[x];
    }
  }

  lemma AnswerConserves(s: State, e: Event)
    requires Conserved(s) && e.Notified? && e.clock >= 0.0
    ensures Conserved(Answer(s, e))
  {
    hide DelayAnswer, Respond, Millis;
    var t := Answer(s, e);
    assert multiset(t.received) == multiset(s.received) + multiset{e.id};
    var others := multiset(ReplyIds(s.replies)) + multiset(s.dropped);
    var index := IndexOf(s.parked, e.call, 0);
    if index.Some? {
      var bound := s.parked[index.value].id;
      RebindIds(s.parked, index.value, e.id);
      assert multiset(t.superseded) == multiset(s.superseded) + multiset{bound};
      Rebalance(multiset(s.received), multiset(EntryIds(s.parked)), multiset(EntryIds(t.parked)), others,
                multiset(s.superseded), e.id, bound);
    } else if t.parked != s.parked {
      IdsSnoc(s.parked, Park(e));
    } else if t.replies != s.replies {
      ReplyIdsSnoc(s.replies, t.replies[|s.replies|]);
    }
  }

  // ---- The timer keeps it ------------------------------------------------------------------

  ghost function Ids(parked: Parked, replies: seq<Reply>): multiset<nat> {
    multiset(EntryIds(parked)) + multiset(ReplyIds(replies))
  }

  lemma SwapRemoveIds(parked: Parked, i: nat)
    requires i < |parked|
    ensures multiset(EntryIds(SwapRemove(parked, i))) == multiset(EntryIds(parked)) - multiset{parked[i].id}
  {
    var ids, last := EntryIds(parked), |parked| - 1;
    var swapped := ids[i := ids[last]];
    assert EntryIds(SwapRemove(parked, i)) == swapped[..last];
    assert swapped == swapped[..last] + [ids[last]];
    var rest := multiset(ids) - multiset{ids[i]};
    assert multiset(swapped) == rest + multiset{ids[last]};
    assert multiset(swapped[..last]) == multiset(swapped) - multiset{ids[last]} == rest;
  }

  lemma SwapRemoveMembers(parked: Parked, i: nat)
    requires i < |parked|
    ensures forall e | e in SwapRemove(parked, i) :: e in parked
    ensures forall e | e in parked :: e in SwapRemove(parked, i) || e == parked[i]
  {
    SwapRemoveTakesOne(parked, i);
    forall e | e in parked ensures e in SwapRemove(parked, i) || e == parked[i] {
      assert e in multiset(parked);
      assert e != parked[i] ==> e in multiset(SwapRemove(parked, i));
    }
    forall e | e in SwapRemove(parked, i) ensures e in parked {
      assert e in multiset(SwapRemove(parked, i));
    }
  }

  lemma SwapRemoveKeeps(parked: Parked, i: nat)
    requires i < |parked| && NoTwins(parked) && AllWellParked(parked)
    ensures NoTwins(SwapRemove(parked, i)) && AllWellParked(SwapRemove(parked, i))
  {
  }

  /** An entry taken when the cut-off clock reads its due time has been held long enough. */
  lemma DueIsNotEarly(entry: Entry, now: nat, at: real)
    requires WellParked(entry) && entry.due <= now && now as real <= at
    ensures NotEarly(DueReply(entry, at))
  {
  }

  /** Draining keeps the queue in order and every id, and answers nothing early. */
  lemma {:induction false} DrainKeeps(parked: Parked, replies: seq<Reply>, now: nat, at: real)
    requires NoTwins(parked) && AllWellParked(parked) && NoneEarly(replies) && now as real <= at
    ensures var r := Drain(parked, replies, now, at);
            NoTwins(r.0) && AllWellParked(r.0) && NoneEarly(r.1) && Ids(r.0, r.1) == Ids(parked, replies)
    decreases |parked|
  {
    hide WellParked, NotEarly, SwapRemove, NoTwins, EntryIds, ReplyIds;
    var due := FirstDue(parked, now, 0);
    if due.Some? {
      var i := due.value;
      var reply := DueReply(parked[i], at);
      SwapRemoveKeeps(parked, i);
      DueIsNotEarly(parked[i], now, at);
      SwapRemoveIds(parked, i);
      ReplyIdsSnoc(replies, reply);
      assert parked[i].id in multiset(EntryIds(parked)) by {
        assert EntryIds(parked)[i] == parked[i].id;
      }
      DrainKeeps(SwapRemove(parked, i), replies + [reply], now, at);
    }
  }

  /** Draining leaves exactly the entries that are not due. */
  lemma {:induction false} DrainLeavesUndue(parked: Parked, replies: seq<Reply>, now: nat, at: real)
    ensures forall e :: e in Drain(parked, replies, now, at).0 <==> e in parked && e.due > now
    decreases |parked|
  {
    hide SwapRemove;
    var due := FirstDue(parked, now, 0);
    if due.Some? {
      SwapRemoveMembers(parked, due.value);
      DrainLeavesUndue(SwapRemove(parked, due.value), replies + [DueReply(parked[due.value], at)], now, at);
    }
  }

  function DueReplies(entries: Parked, at: real): (replies: seq<Reply>)
    ensures |replies| == |entries| && forall i | 0 <= i < |entries| :: replies[i] == DueReply(entries[i], at)
  {
    seq(|entries|, i requires 0 <= i < |entries| => DueReply(entries[i], at))
  }

  /** Draining answers exactly the due entries, each once: those it takes and those it leaves are all there were. */
  lemma {:induction false} DrainAnswersDue(parked: Parked, replies: seq<Reply>, now: nat, at: real) returns (taken: Parked)
    ensures var r := Drain(parked, replies, now, at);
            && multiset(parked) == multiset(r.0) + multiset(taken)
            && (forall e | e in taken :: e.due <= now)
            && (forall e | e in r.0 :: e.due > now)
            && r.1 == replies + DueReplies(taken, at)
    decreases |parked|
  {
    hide SwapRemove, DueReply, DueReplies;
    DrainLeavesUndue(parked, replies, now, at);
    var due := FirstDue(parked, now, 0);
    if due.Some? {
      var entry, left := parked[due.value], SwapRemove(parked, due.value);
      SwapRemoveTakesOne(parked, due.value);
      var rest := DrainAnswersDue(left, replies + [DueReply(entry, at)], now, at);
      taken := [entry] + rest;
      TakesOneMore(parked, left, Drain(parked, replies, now, at).0, entry, rest);
      AnswersOneMore(replies, entry, rest, at);
    } else {
      taken := [];
      assert replies + DueReplies([], at) == replies;
    }
  }

  lemma TakesOneMore(parked: Parked, left: Parked, kept: Parked, entry: Entry, rest: Parked)
    requires entry in parked && multiset(left) == multiset(parked) - multiset{entry}
    requires multiset(left) == multiset(kept) + multiset(rest)
    ensures multiset(parked) == multiset(kept) + multiset([entry] + rest)
  {
    assert entry in multiset(parked);
    assert multiset([entry] + rest) == multiset{entry} + multiset(rest);
    assert multiset(parked) == multiset(left) + multiset{entry};
  }

  lemma AnswersOneMore(replies: seq<Reply>, entry: Entry, rest: Parked, at: real)
    ensures replies + [DueReply(entry, at)] + DueReplies(rest, at) == replies + DueReplies([entry] + rest, at)
  {
    hide DueReply;
    var first, others := [DueReply(entry, at)], DueReplies(rest, at);
    assert DueReplies([entry] + rest, at) == first + others;
    assert replies + first + others == replies + (first + others);
  }

  lemma OnTimeKeeps(s: State, e: Event)
    requires Inv(s) && e.Timer? && Timely(s, e)
    ensures Inv(OnTime(s, e))
  {
    hide Drain, Earliest, Arm, NoTwins, AllWellParked, NoneEarly;
    var now := Millis(e.clock);
    DrainKeeps(s.parked, s.replies, now, e.clock);
    var drained := Drain(s.parked, s.replies, now, e.clock);
    assert Ids(drained.0, drained.1) == Ids(s.parked, s.replies);
  }

  lemma StepKeeps(s: State, e: Event)
    requires Inv(s) && Timely(s, e)
    ensures Inv(Next(s, e))
  {
    if e.Notified? {
      AnswerKeepsEntries(s, e);
      AnswerConserves(s, e);
    } else {
      OnTimeKeeps(s, e);
    }
  }

  // ---- Runs --------------------------------------------------------------------------------

  const INITIAL := State([], [], [], [], [], 0.0, 0, None)

  /** The states a sequence of events leads through. */
  ghost predicate IsRun(states: seq<State>, events: seq<Event>) {
    && |states| == |events| + 1 && states[0] == INITIAL
    && forall k | 0 <= k < |events| :: Timely(states[k], events[k]) && states[k + 1] == Next(states[k], events[k])
  }

  lemma {:induction false} RunKeepsInv(states: seq<State>, events: seq<Event>, k: nat)
    requires IsRun(states, events) && k < |states|
    ensures Inv(states[k])
  {
    if k > 0 {
      RunKeepsInv(states, events, k - 1);
      assert Timely(states[k - 1], events[k - 1]) && states[k] == Next(states[k - 1], events[k - 1]);
      StepKeeps(states[k - 1], events[k - 1]);
    }
  }

  lemma {:induction false} CountsOnce(ids: seq<nat>, x: nat)
    requires forall i, j | 0 <= i < j < |ids| :: ids[i] != ids[j]
    ensures multiset(ids)[x] <= 1
  {
    if ids != [] {
      var n := |ids| - 1;
      CountsOnce(ids[..n], x);
      assert ids == ids[..n] + [ids[n]];
      assert x == ids[n] ==> x !in ids[..n];
    }
  }

  /**
   * When the kernel never uses a notification id twice, every id received is in exactly one place:
   * parked, answered once, dropped as gone, or superseded by the id its restarted call came back with.
   */
  lemma EachNotificationHasOneFate(states: seq<State>, events: seq<Event>, k: nat, id: nat)
    requires IsRun(states, events) && k < |states|
    requires forall i, j | 0 <= i < j < |states[k].received| :: states[k].received[i] != states[k].received[j]
    ensures var s := states[k];
            multiset(EntryIds(s.parked))[id] + multiset(ReplyIds(s.replies))[id] + multiset(s.dropped)[id] + multiset(s.superseded)[id]
            == if id in s.received then 1 else 0
  {
    var s := states[k];
    RunKeepsInv(states, events, k);
    CountsOnce(s.received, id);
    assert id in s.received <==> id in multiset(s.received);
  }

  /** No two parked calls are the same call, and no delayed call is answered before its time. */
  lemma NoTwinsAndNoneEarly(states: seq<State>, events: seq<Event>, k: nat)
    requires IsRun(states, events) && k < |states|
    ensures forall i, j | 0 <= i < j < |states[k].parked| :: states[k].parked[i].call != states[k].parked[j].call
    ensures forall r | r in states[k].replies && r.held.Some? :: r.at > r.held.value.0 + r.held.value.1 as real
  {
    RunKeepsInv(states, events, k);
    forall r | r in states[k].replies && r.held.Some? ensures r.at > r.held.value.0 + r.held.value.1 as real {
      var i :| 0 <= i < |states[k].replies| && states[k].replies[i] == r;
      assert NotEarly(states[k].replies[i]);
    }
  }

  /**
   * After every timer step nothing due is parked, what was due has been answered, and the timer is
   * set, in the future, no later than the earliest due call and the next write of hits; it is off
   * only when there is nothing to wait for.
   */
  lemma TimerCoversEarliest(s: State, e: Event)
    requires Inv(s) && e.Timer? && Timely(s, e)
    ensures var t := OnTime(s, e);
            var now := Millis(e.clock);
            && (t.timer.None? <==> t.parked == [] && !e.stillPending)
            && (t.timer.Some? ==> t.timer.value > now)
            && (forall p | p in t.parked :: p in s.parked && now < p.due && t.timer.Some? && t.timer.value <= p.due)
            && (forall p | p in s.parked :: if p.due > now then p in t.parked else p !in t.parked)
            && (e.stillPending ==> t.timer.Some?)
            && (e.stillPending ==> t.timer.value <= t.lastFlush + FLUSH_INTERVAL || t.timer.value == now + 1)
            && s.replies <= t.replies
            && |t.replies| - |s.replies| == |s.parked| - |t.parked|
  {
    hide Inv;
    var t := OnTime(s, e);
    var now := Millis(e.clock);
    DrainLeavesUndue(s.parked, s.replies, now, e.clock);
    var taken := DrainAnswersDue(s.parked, s.replies, now, e.clock);
    assert |multiset(s.parked)| == |multiset(t.parked)| + |multiset(taken)|;
    hide Drain;
    var due := Earliest(t.parked);
    forall p | p in t.parked ensures due.Some? && due.value <= p.due {
      var i :| 0 <= i < |t.parked| && t.parked[i] == p;
    }
  }

  /** The loop waits for its next event before any event and after every timer step, which ends its rounds. */
  ghost predicate Waits(events: seq<Event>, k: nat) {
    k <= |events| && (k == 0 || events[k - 1].Timer?)
  }

  /** Whenever the loop waits, no parked call is due, and the timer wakes it no later than any falls due. */
  lemma WaitsForTheEarliest(states: seq<State>, events: seq<Event>, k: nat, i: nat)
    requires IsRun(states, events) && Waits(events, k) && i < |states[k].parked|
    ensures var s := states[k];
            && s.clock >= 0.0 && Millis(s.clock) < s.parked[i].due
            && s.timer.Some? && Millis(s.clock) < s.timer.value <= s.parked[i].due
  {
    hide Inv, Millis;
    if k > 0 {
      RunKeepsInv(states, events, k - 1);
      assert Timely(states[k - 1], events[k - 1]) && states[k] == Next(states[k - 1], events[k - 1]);
      TimerCoversEarliest(states[k - 1], events[k - 1]);
      assert states[k].parked[i] in states[k].parked;
    }
  }

  /** A restarted call is bound to its entry, which keeps its due time and answer; nothing is answered. */
  lemma RestartKeepsDueTime(s: State, e: Event, i: nat)
    requires NoTwins(s.parked) && e.Notified? && e.clock >= 0.0
    requires i < |s.parked| && s.parked[i].call == e.call
    ensures var t := Answer(s, e);
            && t.parked == s.parked[i := s.parked[i].(id := e.id)]
            && t.replies == s.replies && t.superseded == s.superseded + [s.parked[i].id]
  {
    var index := IndexOf(s.parked, e.call, 0);
    assert index.Some?;
  }
}
