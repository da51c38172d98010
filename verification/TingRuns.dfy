/** What holds along every run of one ting session, under any arrivals, timeouts, starts and send failures. */
module TingRuns {
  import opened TingModel

  function After(s: Session, events: seq<Event>): Session {
    if events == [] then s else Step(After(s, events[..|events| - 1]), events[|events| - 1]).0
  }

  function LastSends(s: Session, events: seq<Event>): seq<Send>
    requires events != []
  {
    Step(After(s, events[..|events| - 1]), events[|events| - 1]).1
  }

  ghost predicate IsRun(s: Session, events: seq<Event>) {
    forall k | 0 <= k < |events| :: Enabled(After(s, events[..k]), events[k])
  }

  // ----- the timer

  predicate InStep(s: Session) {
    s.state.IDLE? <==> !s.timerActive
  }

  /** An Initiate whose first send fails leaves an active session without a timer. */
  predicate FailsToStart(s: Session, e: Event) {
    e.Initiate? && s.state.IDLE? && !e.ok
  }

  lemma StepKeepsTimer(s: Session, e: Event)
    requires InStep(s) && Enabled(s, e)
    ensures InStep(Step(s, e).0) <==> !FailsToStart(s, e)
  {
  }

  ghost predicate AllInStep(s: Session, events: seq<Event>) {
    forall k | 0 <= k <= |events| :: InStep(After(s, events[..k]))
  }

  ghost predicate NoFailedStart(s: Session, events: seq<Event>) {
    forall k | 0 <= k < |events| :: !FailsToStart(After(s, events[..k]), events[k])
  }

  lemma ByLastEvent(s: Session, events: seq<Event>)
    requires events != []
    ensures var front, last := events[..|events| - 1], events[|events| - 1];
      && (AllInStep(s, events) <==> AllInStep(s, front) && InStep(After(s, events)))
      && (NoFailedStart(s, events) <==> NoFailedStart(s, front) && !FailsToStart(After(s, front), last))
      && (IsRun(s, events) <==> IsRun(s, front) && Enabled(After(s, front), last))
      && (AllInStep(s, front) ==> InStep(After(s, front)))
  {
    hide Step, InStep, FailsToStart, Enabled, After;
    var n := |events|;
    var front := events[..n - 1];
    assert events[..n] == events && front[..n - 1] == front;
    assert forall k | 0 <= k <= n - 1 :: front[..k] == events[..k];
  }

  /** A session is idle exactly when its timer is inactive, all along a run, if and only if no start fails. */
  lemma {:induction false} TimerInStepIff(s: Session, events: seq<Event>)
    requires InStep(s) && IsRun(s, events)
    ensures AllInStep(s, events) <==> NoFailedStart(s, events)
    decreases |events|
  {
    hide Step, InStep, FailsToStart, Enabled;
    if events == [] {
      assert events[..0] == [];
    } else {
      var front, last := events[..|events| - 1], events[|events| - 1];
      ByLastEvent(s, events);
      hide AllInStep, NoFailedStart, IsRun;
      TimerInStepIff(s, front);
      if InStep(After(s, front)) {
        StepKeepsTimer(After(s, front), last);
      }
    }
  }

  /** So without failing starts the two assertions of the code hold: a timeout finds the session active,
      and a HAIL that finds it active finds its timer running. */
  lemma AssertionsHold(s: Session, events: seq<Event>)
    requires InStep(s) && IsRun(s, events) && NoFailedStart(s, events)
    ensures forall k | 0 <= k < |events| :: var before := After(s, events[..k]);
      (events[k].Timeout? ==> !before.state.IDLE?) && (!before.state.IDLE? ==> before.timerActive)
  {
    hide Step;
    TimerInStepIff(s, events);
  }

  // ----- the number of messages

  predicate IsAttempt(send: Send) {
    !send.msg.kind.REPLY?
  }

  /** n attempts before, and one more if one of these sends is one. */
  function Counting(n: nat, sends: seq<Send>): nat {
    if sends != [] && IsAttempt(sends[0]) then n + 1 else n
  }

  function Attempts(s: Session, events: seq<Event>): nat {
    if events == [] then 0
    else Counting(Attempts(s, events[..|events| - 1]), LastSends(s, events))
  }

  predicate AcceptsReply(s: Session, e: Event) {
    && e.Arrive? && s.unicast && e.msg.unicast && e.msg.kind.REPLY? && e.msg.roundId != 0
    && !s.state.IDLE? && e.msg.roundId == s.roundId
  }

  function AcceptedReplies(s: Session, events: seq<Event>): nat {
    if events == [] then 0
    else AcceptedReplies(s, events[..|events| - 1]) +
         if AcceptsReply(After(s, events[..|events| - 1]), events[|events| - 1]) then 1 else 0
  }

  /** From leaving IDLE to returning there: every state strictly inside the run is active. */
  ghost predicate IsActivity(s: Session, events: seq<Event>) {
    s.state.IDLE? && IsRun(s, events) && forall k | 0 < k < |events| :: !After(s, events[..k]).state.IDLE?
  }

  lemma ActivityPrefix(s: Session, events: seq<Event>)
    requires IsActivity(s, events) && events != []
    ensures IsActivity(s, events[..|events| - 1])
  {
    var front := events[..|events| - 1];
    assert forall k | 0 <= k <= |front| :: front[..k] == events[..k];
  }

  /** The attempts a session still has before its retry counters run out. */
  function Budget(s: Session): int {
    REQUEST_COUNT_MAX - s.sentRequestCount +
    if s.requestRoundCount <= REQUEST_ROUND_MAX then
      (REQUEST_COUNT_MAX + 1) * (REQUEST_ROUND_MAX - s.requestRoundCount)
    else 0
  }

  /** What is known of a unicast session after r accepted replies and n attempts since it left IDLE. */
  ghost predicate WithinBudget(t: Session, n: nat, r: nat) {
    var full := 24 * (1 + r / UINT32_RANGE);
    && t.unicast
    && n <= full
    && (!t.state.IDLE? ==>
          (&& t.sentRequestCount <= REQUEST_COUNT_MAX
           && t.requestRoundCount == r % UINT32_RANGE
           && n + Budget(t) <= full))
  }

  lemma LeaveIdle(before: Session, e: Event)
    requires before.unicast && before.state.IDLE? && Enabled(before, e)
    ensures var (after, sends) := Step(before, e);
      WithinBudget(after, Counting(0, sends), 0) && !AcceptsReply(before, e)
  {
  }

  lemma StepWithinBudget(before: Session, e: Event, n: nat, r: nat)
    requires WithinBudget(before, n, r) && !before.state.IDLE?
    ensures var (after, sends) := Step(before, e);
      WithinBudget(after, Counting(n, sends), if AcceptsReply(before, e) then r + 1 else r)
  {
    NextRound(r);
  }

  lemma {:induction false} AttemptsWithinBudget(s: Session, events: seq<Event>)
    requires s.unicast && IsActivity(s, events)
    ensures WithinBudget(After(s, events), Attempts(s, events), AcceptedReplies(s, events))
    decreases |events|
  {
    hide Step, AcceptsReply, WithinBudget;
    if events == [] {
      Start(s);
    } else {
      var n := |events|;
      var front, e := events[..n - 1], events[n - 1];
      ActivityPrefix(s, events);
      assert Enabled(After(s, front), e);
      if front == [] {
        LeaveIdle(s, e);
      } else {
        AttemptsWithinBudget(s, front);
        StepWithinBudget(After(s, front), e, Attempts(s, front), AcceptedReplies(s, front));
      }
    }
  }

  lemma Start(s: Session)
    requires s.unicast && s.state.IDLE?
    ensures WithinBudget(s, 0, 0)
  {
  }

  lemma NextRound(r: nat)
    ensures (r + 1) % UINT32_RANGE == (r % UINT32_RANGE + 1) % UINT32_RANGE
    ensures (r + 1) / UINT32_RANGE == r / UINT32_RANGE + if (r + 1) % UINT32_RANGE == 0 then 1 else 0
  {
  }

  /** At most 24 HAIL and REQUEST attempts for each time the 32-bit round counter has come round, and once more. */
  lemma AttemptsAreBounded(s: Session, events: seq<Event>)
    requires s.unicast && IsActivity(s, events)
    ensures Attempts(s, events) <= 24 * (1 + AcceptedReplies(s, events) / UINT32_RANGE)
  {
    hide Step;
    AttemptsWithinBudget(s, events);
  }

  lemma AtMost24Attempts(s: Session, events: seq<Event>)
    requires s.unicast && IsActivity(s, events) && AcceptedReplies(s, events) < UINT32_RANGE
    ensures Attempts(s, events) <= 24
  {
    hide Step;
    AttemptsWithinBudget(s, events);
  }

  /** events take a fresh session with peer 1 and round id 1 to a hailing state with these counters. */
  ghost predicate Gets(events: seq<Event>, requests: nat, rounds: nat, n: nat, r: nat) {
    var s := NewSession(true, 1, {0}, 1);
    var t := After(s, events);
    && events != [] && IsActivity(s, events)
    && t.state.HAILING? && t.timerActive && t.unicast && t.roundId == 1
    && t.sentRequestCount == requests && t.requestRoundCount == rounds
    && Attempts(s, events) == n && AcceptedReplies(s, events) == r
  }

  lemma ActivityGrows(s: Session, events: seq<Event>, e: Event)
    requires IsActivity(s, events) && !After(s, events).state.IDLE? && Enabled(After(s, events), e)
    ensures var more := events + [e];
      && more[..|events|] == events && IsActivity(s, more)
      && After(s, more) == Step(After(s, events), e).0
      && LastSends(s, more) == Step(After(s, events), e).1
  {
    hide Step;
    var more := events + [e];
    assert more[..|events|] == events;
    assert forall k | 0 <= k <= |events| :: more[..k] == events[..k];
    assert events[..|events|] == events;
  }

  const ANOTHER_REPLY: Event := Arrive(Message(REPLY, true, 1, 0, []), 1, 0, true)

  lemma OneMoreReply(events: seq<Event>, requests: nat, rounds: nat, n: nat, r: nat) returns (more: seq<Event>)
    requires Gets(events, requests, rounds, n, r)
    ensures var rounds' := (rounds + 1) % UINT32_RANGE;
      if rounds' <= REQUEST_ROUND_MAX then Gets(more, 0, rounds', n + 1, r + 1)
      else Gets(more, REQUEST_COUNT_MAX, rounds', n, r + 1)
  {
    more := events + [ANOTHER_REPLY];
    hide IsActivity;
    ActivityGrows(NewSession(true, 1, {0}, 1), events, ANOTHER_REPLY);
  }

  lemma {:induction false} AllRetries(events: seq<Event>, requests: nat, rounds: nat, n: nat, r: nat)
      returns (more: seq<Event>)
    requires Gets(events, requests, rounds, n, r) && requests <= REQUEST_COUNT_MAX
    ensures Gets(more, REQUEST_COUNT_MAX, rounds, n + REQUEST_COUNT_MAX - requests, r)
    decreases REQUEST_COUNT_MAX - requests
  {
    more := events;
    if requests < REQUEST_COUNT_MAX {
      hide IsActivity;
      ActivityGrows(NewSession(true, 1, {0}, 1), events, Timeout(0, true));
      more := AllRetries(events + [Timeout(0, true)], requests + 1, rounds, n + 1, r);
    }
  }

  lemma {:induction false} ManyReplies(events: seq<Event>, requests: nat, rounds: nat, n: nat, r: nat, k: nat)
      returns (more: seq<Event>, last: nat)
    requires Gets(events, requests, rounds, n, r) && REQUEST_ROUND_MAX <= rounds && rounds + k < UINT32_RANGE
    ensures Gets(more, last, rounds + k, n, r + k)
    decreases k
  {
    more, last := events, requests;
    if k > 0 {
      hide Gets, IsActivity, After, Attempts, AcceptedReplies, Step;
      assert (rounds + 1) % UINT32_RANGE == rounds + 1;
      more := OneMoreReply(events, requests, rounds, n, r);
      more, last := ManyReplies(more, REQUEST_COUNT_MAX, rounds + 1, n, r + 1, k - 1);
    }
  }

  lemma FirstHail() returns (events: seq<Event>)
    ensures Gets(events, 0, 0, 1, 0)
  {
    var s := NewSession(true, 1, {0}, 1);
    events := [Initiate(0, true)];
    assert events[..0] == [];
    assert After(s, events) == Step(s, Initiate(0, true)).0;
  }

  /** Three rounds, and every request of each tried to the last. */
  lemma AllRounds() returns (events: seq<Event>)
    ensures Gets(events, 5, 3, 24, 3)
  {
    events := FirstHail();
    hide Gets, IsActivity, After, Attempts, AcceptedReplies, Step;
    events := AllRetries(events, 0, 0, 1, 0);
    events := OneMoreReply(events, 5, 0, 6, 0);
    events := AllRetries(events, 0, 1, 7, 1);
    events := OneMoreReply(events, 5, 1, 12, 1);
    events := AllRetries(events, 0, 2, 13, 2);
    events := OneMoreReply(events, 5, 2, 18, 2);
    events := AllRetries(events, 0, 3, 19, 3);
  }

  /** The 24 is not unconditional: the reply that brings the round counter back to 0 draws a 25th attempt. */
  lemma WrappedCounterDrawsAnotherAttempt() returns (s: Session, events: seq<Event>)
    ensures s.unicast && IsActivity(s, events)
    ensures AcceptedReplies(s, events) == UINT32_RANGE && Attempts(s, events) == 25
  {
    s := NewSession(true, 1, {0}, 1);
    events := ReplyUntilWrapped();
  }

  ghost predicate ExceedsTheBudget(r: nat) {
    exists s: Session, events ::
      s.unicast && IsActivity(s, events) && AcceptedReplies(s, events) == r && Attempts(s, events) > 24
  }

  /** How many replies it takes: an activity that accepts r of them may attempt more than 24 messages if and only if
      the counter has wrapped. */
  lemma MoreThan24Iff(r: nat)
    ensures ExceedsTheBudget(r) <==> r >= UINT32_RANGE
  {
    hide Step, IsActivity, After, Attempts, AcceptedReplies;
    if ExceedsTheBudget(r) {
      var s: Session, events :|
        s.unicast && IsActivity(s, events) && AcceptedReplies(s, events) == r && Attempts(s, events) > 24;
      AttemptsAreBounded(s, events);
    }
    if r >= UINT32_RANGE {
      var events := ReplyUntilWrapped();
      var n;
      events, n := AndOnwards(events, 0, 0, 25, UINT32_RANGE, r - UINT32_RANGE);
      var s := NewSession(true, 1, {0}, 1);
      assert IsActivity(s, events) && AcceptedReplies(s, events) == r && Attempts(s, events) > 24;
    }
  }

  lemma {:induction false} AndOnwards(events: seq<Event>, requests: nat, rounds: nat, n: nat, r: nat, k: nat)
      returns (more: seq<Event>, m: nat)
    requires Gets(events, requests, rounds, n, r)
    ensures m >= n && IsActivity(NewSession(true, 1, {0}, 1), more)
    ensures AcceptedReplies(NewSession(true, 1, {0}, 1), more) == r + k
    ensures Attempts(NewSession(true, 1, {0}, 1), more) == m
    decreases k
  {
    more, m := events, n;
    if k > 0 {
      more := OneMoreReply(events, requests, rounds, n, r);
      hide Gets;
      var next := (rounds + 1) % UINT32_RANGE;
      if next <= REQUEST_ROUND_MAX {
        more, m := AndOnwards(more, 0, next, n + 1, r + 1, k - 1);
      } else {
        more, m := AndOnwards(more, REQUEST_COUNT_MAX, next, n, r + 1, k - 1);
      }
    }
  }

  lemma ReplyUntilWrapped() returns (events: seq<Event>)
    ensures Gets(events, 0, 0, 25, UINT32_RANGE)
  {
    events := AllRounds();
    hide Gets, IsActivity, After, Attempts, AcceptedReplies, Step;
    var last;
    events, last := ManyReplies(events, 5, 3, 24, 3, UINT32_RANGE - 4);
    events := OneMoreReply(events, last, UINT32_RANGE - 1, 24, UINT32_RANGE - 1);
  }

  // ----- multicast

  function Sent(s: Session, events: seq<Event>): nat {
    if events == [] then 0
    else Sent(s, events[..|events| - 1]) + if LastSends(s, events) != [] && LastSends(s, events)[0].ok then 1 else 0
  }

  ghost predicate SentMarked(t: Session, sent: nat) {
    && !t.unicast && t.roundId != 0 && sent <= 1
    && (!t.state.IDLE? ==> (sent == 1 <==> t.sentRoundId != 0))
  }

  lemma StepKeepsMark(before: Session, e: Event, sent: nat)
    requires SentMarked(before, sent) && (before.state.IDLE? ==> sent == 0)
    ensures var (after, sends) := Step(before, e);
      SentMarked(after, if sends != [] && sends[0].ok then sent + 1 else sent)
  {
  }

  lemma {:induction false} SentIsMarked(s: Session, events: seq<Event>)
    requires !s.unicast && s.roundId != 0 && IsActivity(s, events)
    ensures SentMarked(After(s, events), Sent(s, events))
    decreases |events|
  {
    hide Step;
    if events != [] {
      var n := |events|;
      var front := events[..n - 1];
      ActivityPrefix(s, events);
      SentIsMarked(s, front);
      assert Enabled(After(s, front), events[n - 1]);
      assert front != [] ==> !After(s, front).state.IDLE?;
      StepKeepsMark(After(s, front), events[n - 1], Sent(s, front));
    }
  }

  /** A group session sends at most one message from leaving IDLE to returning there, given a nonzero round id. */
  lemma AtMostOneMulticast(s: Session, events: seq<Event>)
    requires !s.unicast && s.roundId != 0 && IsActivity(s, events)
    ensures Sent(s, events) <= 1
  {
    SentIsMarked(s, events);
  }

  // ----- what one handler keeps

  ghost predicate KeepsTimer(before: Session, after: Session) {
    InStep(before) ==> InStep(after)
  }

  /** Whatever an active unicast session had used of its budget, this step counts on from there. */
  ghost predicate KeepsBudget(before: Session, after: Session, sends: seq<Send>, accepted: bool) {
    forall n: nat, r: nat | WithinBudget(before, n, r) && !before.state.IDLE? ::
      WithinBudget(after, Counting(n, sends), if accepted then r + 1 else r)
  }

  /** The round id of the last message sent goes on telling whether a group session has sent its one message. */
  ghost predicate KeepsMark(before: Session, after: Session, sends: seq<Send>) {
    forall sent: nat | SentMarked(before, sent) && (before.state.IDLE? ==> sent == 0) ::
      SentMarked(after, if sends != [] && sends[0].ok then sent + 1 else sent)
  }

  lemma StepKeeps(before: Session, e: Event)
    requires e.Timeout? ==> !before.state.IDLE?
    ensures var (after, sends) := Step(before, e);
      && (FailsToStart(before, e) || KeepsTimer(before, after))
      && KeepsBudget(before, after, sends, AcceptsReply(before, e))
      && KeepsMark(before, after, sends)
  {
    var (after, sends) := Step(before, e);
    var accepted := AcceptsReply(before, e);
    if InStep(before) {
      StepKeepsTimer(before, e);
    }
    forall n: nat, r: nat | WithinBudget(before, n, r) && !before.state.IDLE?
      ensures WithinBudget(after, Counting(n, sends), if accepted then r + 1 else r)
    {
      StepWithinBudget(before, e, n, r);
    }
    forall sent: nat | SentMarked(before, sent) && (before.state.IDLE? ==> sent == 0)
      ensures SentMarked(after, if sends != [] && sends[0].ok then sent + 1 else sent)
    {
      StepKeepsMark(before, e, sent);
    }
  }

  lemma TimeoutKeeps(s: Session, now: int, ok: bool)
    requires !s.state.IDLE?
    ensures var (after, sends) := OnTimeout(s, now, ok);
            KeepsTimer(s, after) && KeepsBudget(s, after, sends, false) && KeepsMark(s, after, sends)
  {
    StepKeeps(s, Timeout(now, ok));
    hide OnTimeout, KeepsTimer, KeepsBudget, KeepsMark;
  }

  lemma HailKeeps(s: Session, now: int, ok: bool)
    ensures var (after, sends) := OnHail(s, now, ok); KeepsTimer(s, after) && KeepsBudget(s, after, sends, false)
  {
    hide ReportsOf;
  }

  lemma ReplyKeeps(s: Session, msg: Message, src: nat, now: int, ok: bool)
    ensures var (after, sends) := OnReply(s, msg, src, now, ok);
            KeepsTimer(s, after) && KeepsBudget(s, after, sends, !s.state.IDLE? && msg.roundId == s.roundId)
  {
    hide ReportsOf;
    var (after, sends) := OnReply(s, msg, src, now, ok);
    var accepted := !s.state.IDLE? && msg.roundId == s.roundId;
    forall n: nat, r: nat | WithinBudget(s, n, r) && !s.state.IDLE?
      ensures WithinBudget(after, Counting(n, sends), if accepted then r + 1 else r)
    {
      NextRound(r);
    }
  }

  lemma RequestKeeps(s: Session, msg: Message, src: nat, now: int, ok: bool)
    ensures var (after, sends) := OnUnicastRequest(s, msg, src, now, ok);
            KeepsTimer(s, after) && KeepsBudget(s, after, sends, false)
  {
    hide ReportsOf;
  }

  lemma MulticastKeeps(s: Session, msg: Message, src: nat, now: int)
    ensures var after := OnMulticastRequest(s, msg, src, now);
            KeepsTimer(s, after) && (msg.roundId != 0 ==> KeepsMark(s, after, []))
  {
  }

  /** Left alone, a session is idle again after at most six timeouts. */
  lemma {:induction false} SilenceEnds(s: Session, events: seq<Event>)
    requires InStep(s) && !s.state.IDLE? && s.sentRequestCount <= REQUEST_COUNT_MAX
    requires IsRun(s, events) && forall e | e in events :: e.Timeout?
    ensures |events| <= REQUEST_COUNT_MAX + 1 - s.sentRequestCount
    ensures After(s, events).state.IDLE? || After(s, events).sentRequestCount == s.sentRequestCount + |events|
    ensures InStep(After(s, events)) && After(s, events).sentRequestCount <= REQUEST_COUNT_MAX
    decreases |events|
  {
    if events != [] {
      var front, last := events[..|events| - 1], events[|events| - 1];
      ByLastEvent(s, events);
      SilenceEnds(s, front);
      assert last.Timeout?;
    }
  }
}
