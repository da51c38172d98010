/** One ting session as a transition system: what every arrival, timeout and start does to it. */
module TingModel {

  const REQUEST_COUNT_MAX: nat := 5
  const REQUEST_ROUND_MAX: nat := 3
  const REPORT_COUNT_MAX: nat := 10
  const UINT32_RANGE: nat := 0x1_0000_0000

  // Times are microseconds on the local clock; UNDETERMINED is the round-trip time of an observation without one.
  const UNDETERMINED: int := -1

  datatype State = IDLE | HAILING | CONNECTED

  datatype Kind = HAIL | REQUEST | REPLY

  datatype Report = Report(about: nat, roundId: nat, refTime: int, obsTime: int, rtt: int)

  datatype Message = Message(kind: Kind, unicast: bool, roundId: nat, sentTime: int, reports: seq<Report>)

  datatype Observation = Observation(src: nat, roundId: nat, refTime: int, obsTime: int, rtt: int)

  datatype Session = Session(
    unicast: bool, peer: nat, local: set<nat>,
    state: State, roundId: nat, sentRoundId: nat, sentMsgTime: int,
    sentRequestCount: nat, requestRoundCount: nat,
    observations: seq<Observation>, timerActive: bool)

  /** A send attempt and whether the socket took it. */
  datatype Send = Send(msg: Message, ok: bool)

  datatype Event =
    | Initiate(now: int, ok: bool)
    | Arrive(msg: Message, src: nat, now: int, ok: bool)
    | Timeout(now: int, ok: bool)

  function NewSession(unicast: bool, peer: nat, local: set<nat>, roundId: nat): Session {
    Session(unicast, peer, local, IDLE, roundId, 0, 0, 0, 0, [], false)
  }

  function Reset(s: Session, roundId: nat): Session {
    s.(state := IDLE, roundId := roundId, sentRoundId := 0, sentMsgTime := 0,
       sentRequestCount := 0, requestRoundCount := 0, observations := [])
  }

  /** The oldest observations that concern the peer (any, for a group session), up to n of them. */
  function ReportsOf(s: Session, from: nat, n: nat): (reports: seq<Report>)
    requires from <= |s.observations|
    decreases |s.observations| - from
  {
    if n == 0 || from == |s.observations| then []
    else
      var o := s.observations[from];
      if s.unicast && o.src != s.peer then ReportsOf(s, from + 1, n)
      else [Report(o.src, o.roundId, o.refTime, o.obsTime, o.rtt)] + ReportsOf(s, from + 1, n - 1)
  }

  predicate Concerns(s: Session, k: nat)
    requires k < |s.observations|
  {
    s.unicast ==> s.observations[k].src == s.peer
  }

  /** Which observations get reported: from the given one on, the first n that concern the peer. */
  lemma {:induction false} FirstReported(s: Session, from: nat, n: nat) returns (idx: seq<nat>)
    requires from <= |s.observations|
    ensures var reports := ReportsOf(s, from, n);
      && |idx| == |reports| <= n
      && (forall i, j | 0 <= i < j < |idx| :: idx[i] < idx[j])
      && (forall i | 0 <= i < |idx| :: from <= idx[i] < |s.observations| && Concerns(s, idx[i]))
      && (forall k: nat | from <= k < |s.observations| && Concerns(s, k) ::
            k in idx || (|idx| == n && forall i | 0 <= i < |idx| :: idx[i] < k))
      && forall i | 0 <= i < |idx| ::
           var o := s.observations[idx[i]]; reports[i] == Report(o.src, o.roundId, o.refTime, o.obsTime, o.rtt)
    decreases |s.observations| - from
  {
    if n == 0 || from == |s.observations| {
      idx := [];
    } else if !Concerns(s, from) {
      idx := FirstReported(s, from + 1, n);
    } else {
      var rest := FirstReported(s, from + 1, n - 1);
      idx := [from] + rest;
      forall k: nat | from <= k < |s.observations| && Concerns(s, k)
        ensures k in idx || (|idx| == n && forall i | 0 <= i < |idx| :: idx[i] < k)
      {
        assert k == from || k in rest || (|rest| == n - 1 && forall i | 0 <= i < |rest| :: rest[i] < k);
      }
    }
  }

  function Outgoing(s: Session, kind: Kind, now: int): Message {
    Message(kind, s.unicast, s.roundId, now, if kind.HAIL? then [] else ReportsOf(s, 0, REPORT_COUNT_MAX))
  }

  function AfterSend(s: Session, now: int, ok: bool): Session {
    if ok then s.(sentMsgTime := now, sentRoundId := s.roundId) else s
  }

  /** A report that is about this session's own last message (in a unicast session). */
  predicate IsFeedback(s: Session, r: Report) {
    r.about in s.local && (s.unicast ==> r.roundId == s.roundId && r.refTime == s.sentMsgTime)
  }

  function RoundTrip(msg: Message, r: Report, recvTime: int): int {
    (recvTime - r.refTime) - (msg.sentTime - r.obsTime)
  }

  /** The round-trip time that the last feedback among the first k reports gives. */
  function MeasuredRtt(s: Session, msg: Message, recvTime: int, k: nat): int
    requires k <= |msg.reports|
  {
    if k == 0 then UNDETERMINED
    else if IsFeedback(s, msg.reports[k - 1]) then RoundTrip(msg, msg.reports[k - 1], recvTime)
    else MeasuredRtt(s, msg, recvTime, k - 1)
  }

  /** Among the first k reports, the last feedback decides, if there is any. */
  lemma {:induction false} LastFeedback(s: Session, msg: Message, recvTime: int, k: nat)
    requires k <= |msg.reports|
    ensures forall j | 0 <= j < k && IsFeedback(s, msg.reports[j]) ::
      (forall i | j < i < k :: !IsFeedback(s, msg.reports[i])) ==>
        MeasuredRtt(s, msg, recvTime, k) == RoundTrip(msg, msg.reports[j], recvTime)
    ensures (forall j | 0 <= j < k :: !IsFeedback(s, msg.reports[j])) ==>
      MeasuredRtt(s, msg, recvTime, k) == UNDETERMINED
  {
    hide IsFeedback, RoundTrip;
    if k > 0 && !IsFeedback(s, msg.reports[k - 1]) {
      LastFeedback(s, msg, recvTime, k - 1);
    }
  }

  function Recorded(s: Session, msg: Message, src: nat, recvTime: int): Session {
    s.(observations := s.observations +
       [Observation(src, msg.roundId, msg.sentTime, recvTime, MeasuredRtt(s, msg, recvTime, |msg.reports|))])
  }

  predicate HasFeedback(s: Session, msg: Message) {
    !s.unicast || exists k :: 0 <= k < |msg.reports| && IsFeedback(s, msg.reports[k])
  }

  function OnHail(s: Session, now: int, ok: bool): (Session, seq<Send>) {
    var s1 := if s.state.IDLE? then
                Reset(s, s.roundId).(state := CONNECTED, timerActive := true, sentRequestCount := REQUEST_COUNT_MAX)
              else s;
    var sends := [Send(Outgoing(s1, REPLY, now), ok)];
    if ok then (AfterSend(s1, now, true), sends)
    else (Reset(s1, s1.roundId).(timerActive := false), sends)
  }

  function OnReply(s: Session, msg: Message, src: nat, now: int, ok: bool): (Session, seq<Send>) {
    if s.state.IDLE? || msg.roundId != s.roundId then (s, [])
    else
      var s1 := Recorded(s, msg, src, now);
      var rounds := (s.requestRoundCount + 1) % UINT32_RANGE;
      var s2 := s1.(requestRoundCount := rounds);
      if rounds <= REQUEST_ROUND_MAX then
        var s3 := s2.(sentRequestCount := 0);
        (AfterSend(s3, now, ok), [Send(Outgoing(s3, REQUEST, now), ok)])
      else (s2.(sentRequestCount := REQUEST_COUNT_MAX), [])
  }

  function OnUnicastRequest(s: Session, msg: Message, src: nat, now: int, ok: bool): (Session, seq<Send>) {
    if !s.state.CONNECTED? || msg.roundId != s.roundId then (s, [])
    else
      var s1 := Recorded(s, msg, src, now);
      if HasFeedback(s, msg) then (AfterSend(s1, now, ok), [Send(Outgoing(s1, REPLY, now), ok)]) else (s1, [])
  }

  function OnMulticastRequest(s: Session, msg: Message, src: nat, now: int): Session {
    if !s.state.IDLE? && msg.roundId != s.roundId then s
    else
      var s1 := if s.state.IDLE? then Reset(s, msg.roundId) else s;
      var s2 := Recorded(s1, msg, src, now);
      if s2.sentRoundId == 0 && s2.state.IDLE? then s2.(timerActive := true, state := CONNECTED) else s2
  }

  /** Which handler a message reaches; a null round id and a kind that does not suit the session are ignored. */
  function OnArrival(s: Session, msg: Message, src: nat, now: int, ok: bool): (Session, seq<Send>) {
    if msg.roundId == 0 || msg.unicast != s.unicast then (s, [])
    else if s.unicast then
      match msg.kind
      case HAIL => OnHail(s, now, ok)
      case REQUEST => OnUnicastRequest(s, msg, src, now, ok)
      case REPLY => OnReply(s, msg, src, now, ok)
    else if msg.kind.REQUEST? then (OnMulticastRequest(s, msg, src, now), [])
    else (s, [])
  }

  function OnTimeout(s: Session, now: int, ok: bool): (Session, seq<Send>) {
    if s.sentRequestCount < REQUEST_COUNT_MAX && (s.unicast || s.sentRoundId == 0) then
      var kind := if s.unicast && s.state.HAILING? then HAIL else REQUEST;
      (AfterSend(s, now, ok).(sentRequestCount := s.sentRequestCount + 1), [Send(Outgoing(s, kind, now), ok)])
    else (Reset(s, s.roundId).(timerActive := false), [])
  }

  function OnInitiate(s: Session, now: int, ok: bool): (Session, seq<Send>) {
    if !s.state.IDLE? then (s, [])
    else
      var s1 := Reset(s, s.roundId).(state := if s.unicast then HAILING else CONNECTED);
      var sends := [Send(Outgoing(s1, if s.unicast then HAIL else REQUEST, now), ok)];
      (AfterSend(s1, now, ok).(timerActive := s1.timerActive || ok), sends)
  }

  function Step(s: Session, e: Event): (Session, seq<Send>) {
    match e
    case Initiate(now, ok) => OnInitiate(s, now, ok)
    case Arrive(msg, src, now, ok) => OnArrival(s, msg, src, now, ok)
    case Timeout(now, ok) => OnTimeout(s, now, ok)
  }

  /** The timer manager only calls back a session whose timer is active. */
  predicate Enabled(s: Session, e: Event) {
    e.Timeout? ==> s.timerActive
  }
}

/** The session object, whose handlers update its fields. */
module Ting {
  import opened TingModel
  import opened TingRuns

  class TingSession {
    const unicast: bool
    const peer: nat
    const local: set<nat>
    var sessionState: State
    var roundId: nat
    var sentRoundId: nat
    var sentMsgTime: int
    var sentRequestCount: nat
    var requestRoundCount: nat
    var observations: seq<Observation>
    var timerActive: bool

    ghost function View(): Session
      reads this
    {
      Session(unicast, peer, local, sessionState, roundId, sentRoundId, sentMsgTime,
              sentRequestCount, requestRoundCount, observations, timerActive)
    }

    constructor (unicast: bool, peer: nat, local: set<nat>, roundId: nat)
      ensures View() == NewSession(unicast, peer, local, roundId)
    {
      this.unicast, this.peer, this.local, this.roundId := unicast, peer, local, roundId;
      sessionState, sentRoundId, sentMsgTime, sentRequestCount, requestRoundCount := IDLE, 0, 0, 0, 0;
      observations, timerActive := [], false;
    }

    method ResetTo(newRoundId: nat)
      modifies this
      ensures View() == Reset(old(View()), newRoundId)
    {
      sessionState, roundId, sentRoundId, sentMsgTime := IDLE, newRoundId, 0, 0;
      sentRequestCount, requestRoundCount, observations := 0, 0, [];
    }

    /** idx picks the first ten observations that concern the peer (any observation, in a group session), in order,
        and the reports are what these say. */
    ghost predicate ReportsFirstTen(reports: seq<Report>, idx: seq<nat>)
      reads this`observations
    {
      && |idx| == |reports| <= 10
      && (forall i, j | 0 <= i < j < |idx| :: idx[i] < idx[j])
      && (forall i | 0 <= i < |idx| :: idx[i] < |observations| && (unicast ==> observations[idx[i]].src == peer))
      && (forall k: nat | k < |observations| && (unicast ==> observations[k].src == peer) ::
            k in idx || (|idx| == 10 && forall i | 0 <= i < |idx| :: idx[i] < k))
      && forall i | 0 <= i < |idx| ::
           && reports[i].about == observations[idx[i]].src
           && reports[i].roundId == observations[idx[i]].roundId
           && reports[i].refTime == observations[idx[i]].refTime
           && reports[i].obsTime == observations[idx[i]].obsTime
           && reports[i].rtt == observations[idx[i]].rtt
    }

    ghost predicate ListsWhatConcerns(reports: seq<Report>)
      reads this`observations
    {
      exists idx :: ReportsFirstTen(reports, idx)
    }

    lemma SomeFirstTen()
      ensures ListsWhatConcerns(ReportsOf(View(), 0, REPORT_COUNT_MAX))
    {
      var reports := ReportsOf(View(), 0, REPORT_COUNT_MAX);
      var idx := FirstReported(View(), 0, REPORT_COUNT_MAX);
      hide ReportsOf;
      forall k: nat | k < |observations| && (unicast ==> observations[k].src == peer)
        ensures k in idx || (|idx| == 10 && forall i | 0 <= i < |idx| :: idx[i] < k)
      {
        assert Concerns(View(), k);
      }
      assert ReportsFirstTen(reports, idx);
    }

    method AppendReports() returns (reports: seq<Report>)
      ensures reports == ReportsOf(View(), 0, REPORT_COUNT_MAX)
      ensures ListsWhatConcerns(reports)
    {
      SomeFirstTen();
      hide ListsWhatConcerns;
      reports := [];
      var i := 0;
      var reportCount := 0;
      while i < |observations| && reportCount < REPORT_COUNT_MAX
        invariant i <= |observations| && reportCount == |reports| <= REPORT_COUNT_MAX
        invariant ReportsOf(View(), 0, REPORT_COUNT_MAX) ==
                  reports + ReportsOf(View(), i, REPORT_COUNT_MAX - reportCount)
      {
        var obs := observations[i];
        i := i + 1;
        if unicast && obs.src != peer { continue; }
        reports := reports + [Report(obs.src, obs.roundId, obs.refTime, obs.obsTime, obs.rtt)];
        reportCount := reportCount + 1;
      }
      assert ReportsOf(View(), i, REPORT_COUNT_MAX - reportCount) == [];
      assert reports == ReportsOf(View(), 0, REPORT_COUNT_MAX);
    }

    /** Builds the message, observation by observation, and sends it. Only a send that succeeds is remembered. */
    method SendMessage(kind: Kind, now: int, ok: bool) returns (sends: seq<Send>)
      modifies this
      ensures View() == AfterSend(old(View()), now, ok)
      ensures sends == [Send(Outgoing(old(View()), kind, now), ok)]
      ensures var m := sends[0].msg;
        m.kind == kind && m.unicast == unicast && m.roundId == roundId && m.sentTime == now && sends[0].ok == ok
      ensures kind == HAIL ==> sends[0].msg.reports == []
      ensures kind != HAIL ==> ListsWhatConcerns(sends[0].msg.reports)
      ensures ok ==> View() == old(View()).(sentMsgTime := now, sentRoundId := old(roundId))
      ensures !ok ==> View() == old(View())
    {
      hide ReportsOf, ListsWhatConcerns;
      var reports: seq<Report> := [];
      if kind != HAIL {
        reports := AppendReports();
      }
      sends := [Send(Message(kind, unicast, roundId, now, reports), ok)];
      if ok {
        sentMsgTime, sentRoundId := now, roundId;
      }
    }

    /** The report is about this host and, in a unicast session, about its round and the message it sent last. */
    ghost predicate OnMine(r: Report)
      reads this`roundId, this`sentMsgTime
    {
      r.about in local && (unicast ==> r.roundId == roundId && r.refTime == sentMsgTime)
    }

    ghost predicate LastOnMine(reports: seq<Report>, k: int)
      requires 0 <= k < |reports|
      reads this`roundId, this`sentMsgTime
    {
      OnMine(reports[k]) && forall j | k < j < |reports| :: !OnMine(reports[j])
    }

    lemma LastOnMineDecides(msg: Message, recvTime: int)
      ensures var rtt := MeasuredRtt(View(), msg, recvTime, |msg.reports|);
        && (forall k | 0 <= k < |msg.reports| && LastOnMine(msg.reports, k) ::
              rtt == (recvTime - msg.reports[k].refTime) - (msg.sentTime - msg.reports[k].obsTime))
        && ((forall k | 0 <= k < |msg.reports| :: !OnMine(msg.reports[k])) ==> rtt == -1)
      ensures HasFeedback(View(), msg) <==> !unicast || exists k :: 0 <= k < |msg.reports| && OnMine(msg.reports[k])
    {
      LastFeedback(View(), msg, recvTime, |msg.reports|);
      forall r: Report ensures OnMine(r) <==> IsFeedback(View(), r) {
      }
      hide OnMine, IsFeedback, MeasuredRtt;
    }

    /** Records an arrival; in a unicast session only feedback on the last message sent is valid. */
    method RecordObservation(msg: Message, src: nat, recvTime: int) returns (validFeedback: bool)
      modifies this`observations
      ensures View() == Recorded(old(View()), msg, src, recvTime)
      ensures validFeedback == HasFeedback(old(View()), msg)
      ensures |observations| == |old(observations)| + 1 && old(observations) <= observations
      ensures var o := observations[|observations| - 1];
        && o.src == src && o.roundId == msg.roundId && o.refTime == msg.sentTime && o.obsTime == recvTime
        && (forall k | 0 <= k < |msg.reports| && LastOnMine(msg.reports, k) ::
              o.rtt == (recvTime - msg.reports[k].refTime) - (msg.sentTime - msg.reports[k].obsTime))
        && ((forall k | 0 <= k < |msg.reports| :: !OnMine(msg.reports[k])) ==> o.rtt == -1)
      ensures validFeedback <==> !unicast || exists k :: 0 <= k < |msg.reports| && OnMine(msg.reports[k])
    {
      LastOnMineDecides(msg, recvTime);
      hide OnMine, LastOnMine;
      validFeedback := !unicast;
      var rtt := UNDETERMINED;
      for k := 0 to |msg.reports|
        invariant rtt == MeasuredRtt(View(), msg, recvTime, k)
        invariant validFeedback <==> !unicast || exists j :: 0 <= j < k && IsFeedback(View(), msg.reports[j])
      {
        var report := msg.reports[k];
        if report.about in local {
          var measured := recvTime - report.refTime;
          var holdTime := msg.sentTime - report.obsTime;
          measured := measured - holdTime;
          if unicast {
            if report.roundId != roundId { continue; }
            if report.refTime != sentMsgTime { continue; }
          }
          rtt, validFeedback := measured, true;
        }
      }
      observations := observations + [Observation(src, msg.roundId, msg.sentTime, recvTime, rtt)];
    }

    /** The session as it is when idle. */
    ghost function Blank(round: nat): Session {
      Session(unicast, peer, local, IDLE, round, 0, 0, 0, 0, [], false)
    }

    /** What an arrival adds to the observations. */
    ghost predicate Adds(before: Session, msg: Message, src: nat, now: int)
      reads this`observations
    {
      && |observations| == |before.observations| + 1 && before.observations <= observations
      && var o := observations[|before.observations|];
         && o.src == src && o.roundId == msg.roundId && o.refTime == msg.sentTime && o.obsTime == now
         && o.rtt == MeasuredRtt(before, msg, now, |msg.reports|)
    }

    /** Answers with one REPLY, from an idle session without reports. The session is active afterwards if and only if
        the REPLY went out; one that was idle has no attempts of its own, so it ends at its next timeout. */
    method HandleHail(now: int, ok: bool) returns (sends: seq<Send>)
      modifies this
      ensures (View(), sends) == OnHail(old(View()), now, ok)
      ensures |sends| == 1 && sends[0].msg.kind == REPLY && sends[0].msg.roundId == old(roundId) == roundId
      ensures old(sessionState) == IDLE ==> sends[0].msg.reports == []
      ensures sends[0].msg.sentTime == now
      ensures ok && old(sessionState) == IDLE ==>
        View() == Blank(roundId).(state := CONNECTED, timerActive := true, sentRequestCount := 5,
                                  sentMsgTime := now, sentRoundId := roundId)
      ensures ok && old(sessionState) != IDLE ==> View() == old(View()).(sentMsgTime := now, sentRoundId := roundId)
      ensures !ok ==> View() == Blank(roundId)
      ensures KeepsTimer(old(View()), View()) && KeepsBudget(old(View()), View(), sends, false)
    {
      HailKeeps(View(), now, ok);
      hide KeepsTimer, KeepsBudget, ListsWhatConcerns, LastOnMine, OnMine, HasFeedback;
      if sessionState == IDLE {
        ResetTo(roundId);
        sessionState, timerActive := CONNECTED, true;
        sentRequestCount := REQUEST_COUNT_MAX;
      }
      sends := SendMessage(REPLY, now, ok);
      if !ok {
        timerActive := false;
        ResetTo(roundId);
      }
    }

    /** Takes a REPLY of its round into the observations and, in the first three rounds, answers with a REQUEST that
        may be retried from scratch; after that the session makes no more attempts. Any other REPLY changes nothing. */
    method HandleReply(msg: Message, src: nat, now: int, ok: bool) returns (sends: seq<Send>)
      modifies this
      ensures (View(), sends) == OnReply(old(View()), msg, src, now, ok)
      ensures sessionState == old(sessionState) && roundId == old(roundId)
      ensures var accepted := old(sessionState) != IDLE && msg.roundId == old(roundId);
        && (if accepted then
              && Adds(old(View()), msg, src, now)
              && requestRoundCount == (old(requestRoundCount) + 1) % 0x1_0000_0000
            else View() == old(View()) && sends == [])
        && (accepted && requestRoundCount <= 3 ==>
              |sends| == 1 && sends[0].msg.kind == REQUEST && sends[0].msg.sentTime == now && sentRequestCount == 0)
        && (accepted && requestRoundCount > 3 ==> sends == [] && sentRequestCount == 5)
        && (if sends != [] && ok then sentMsgTime == now && sentRoundId == roundId
            else sentMsgTime == old(sentMsgTime) && sentRoundId == old(sentRoundId))
        && timerActive == old(timerActive)
        && KeepsTimer(old(View()), View()) && KeepsBudget(old(View()), View(), sends, accepted)
    {
      ReplyKeeps(View(), msg, src, now, ok);
      hide KeepsTimer, KeepsBudget, MeasuredRtt, ReportsOf, ListsWhatConcerns, LastOnMine, OnMine, HasFeedback;
      if sessionState == IDLE || msg.roundId != roundId {
        return [];
      }
      var _ := RecordObservation(msg, src, now);
      requestRoundCount := (requestRoundCount + 1) % UINT32_RANGE;
      if requestRoundCount <= REQUEST_ROUND_MAX {
        sentRequestCount := 0;
        sends := SendMessage(REQUEST, now, ok);
      } else {
        sentRequestCount := REQUEST_COUNT_MAX;
        sends := [];
      }
    }

    /** Answers with a REPLY exactly those requests of its round that report on its own last message. */
    method HandleUnicastRequest(msg: Message, src: nat, now: int, ok: bool) returns (sends: seq<Send>)
      modifies this
      ensures (View(), sends) == OnUnicastRequest(old(View()), msg, src, now, ok)
      ensures sends != [] <==>
              old(sessionState) == CONNECTED && msg.roundId == old(roundId) && HasFeedback(old(View()), msg)
      ensures sends != [] ==> |sends| == 1 && sends[0].msg.kind == REPLY && sends[0].msg.sentTime == now
      ensures View() ==
              old(View()).(observations := observations, sentMsgTime := sentMsgTime, sentRoundId := sentRoundId)
      ensures if sends != [] && ok then sentMsgTime == now && sentRoundId == roundId
              else sentMsgTime == old(sentMsgTime) && sentRoundId == old(sentRoundId)
      ensures if old(sessionState) == CONNECTED && msg.roundId == old(roundId) then Adds(old(View()), msg, src, now)
              else observations == old(observations)
      ensures KeepsTimer(old(View()), View()) && KeepsBudget(old(View()), View(), sends, false)
    {
      RequestKeeps(View(), msg, src, now, ok);
      hide KeepsTimer, KeepsBudget, MeasuredRtt, ReportsOf, ListsWhatConcerns, LastOnMine, OnMine, HasFeedback;
      if sessionState != CONNECTED || msg.roundId != roundId {
        return [];
      }
      var validFeedback := RecordObservation(msg, src, now);
      sends := [];
      if validFeedback {
        sends := SendMessage(REPLY, now, ok);
      }
    }

    /** Records requests of its round; an idle session takes up the round of the request and starts its timer. */
    method HandleMulticastRequest(msg: Message, src: nat, now: int)
      modifies this
      ensures View() == OnMulticastRequest(old(View()), msg, src, now)
      ensures old(sessionState) == IDLE ==>
        && View() == Blank(msg.roundId).(state := CONNECTED, timerActive := true, observations := observations)
        && Adds(Blank(msg.roundId).(timerActive := old(timerActive)), msg, src, now)
      ensures old(sessionState) != IDLE ==>
        && View() == old(View()).(observations := observations)
        && if msg.roundId == roundId then Adds(old(View()), msg, src, now) else observations == old(observations)
      ensures KeepsTimer(old(View()), View())
      ensures msg.roundId != 0 ==> KeepsMark(old(View()), View(), [])
    {
      MulticastKeeps(View(), msg, src, now);
      hide KeepsTimer, KeepsMark, MeasuredRtt, ReportsOf, ListsWhatConcerns, LastOnMine, OnMine, HasFeedback;
      if sessionState == IDLE {
        ResetTo(msg.roundId);
      } else if msg.roundId != roundId {
        return;
      }
      var _ := RecordObservation(msg, src, now);
      if sentRoundId == 0 && sessionState == IDLE {
        timerActive, sessionState := true, CONNECTED;
      }
    }

    /** Ignores a message without a round, of the other kind of session, or a group's HAIL or REPLY. No message draws
        an attempt but a REPLY that is accepted, and none sets off a group session's sending. */
    method HandleMessage(msg: Message, src: nat, now: int, ok: bool) returns (sends: seq<Send>)
      modifies this
      ensures (View(), sends) == OnArrival(old(View()), msg, src, now, ok)
      ensures msg.roundId == 0 || msg.unicast != unicast || (!unicast && msg.kind != REQUEST) ==>
        View() == old(View()) && sends == []
      ensures |sends| <= 1 && (sends != [] ==> unicast && sends[0].msg.roundId == old(roundId))
      ensures msg.roundId != 0 && msg.unicast && unicast ==>
        && (msg.kind == HAIL ==> sends != [])
        && (sends != [] ==> sends[0].msg.kind == if msg.kind == REPLY then REQUEST else REPLY)
        && (if && msg.kind != HAIL && msg.roundId == old(roundId) && old(sessionState) != IDLE
               && (msg.kind == REQUEST ==> old(sessionState) == CONNECTED)
            then Adds(old(View()), msg, src, now)
            else observations == old(observations) || observations == [])
      ensures msg.roundId != 0 && !msg.unicast && !unicast && msg.kind == REQUEST ==> sessionState != IDLE
      ensures sends != [] && IsAttempt(sends[0]) ==> AcceptsReply(old(View()), Arrive(msg, src, now, ok))
      ensures KeepsTimer(old(View()), View()) && KeepsMark(old(View()), View(), sends)
      ensures KeepsBudget(old(View()), View(), sends, AcceptsReply(old(View()), Arrive(msg, src, now, ok)))
    {
      StepKeeps(View(), Arrive(msg, src, now, ok));
      hide KeepsTimer, KeepsMark, KeepsBudget, MeasuredRtt, ReportsOf, ListsWhatConcerns, LastOnMine, OnMine,
           HasFeedback;
      sends := [];
      if msg.roundId == 0 || msg.unicast != unicast {
        return;
      }
      if unicast {
        match msg.kind {
          case HAIL => sends := HandleHail(now, ok);
          case REQUEST => sends := HandleUnicastRequest(msg, src, now, ok);
          case REPLY => sends := HandleReply(msg, src, now, ok);
        }
      } else if msg.kind == REQUEST {
        HandleMulticastRequest(msg, src, now);
      }
    }

    /** Either makes one more attempt, whether or not it gets through, or ends the session with its timer. */
    method OnSessionTimeout(now: int, ok: bool) returns (sends: seq<Send>)
      requires sessionState != IDLE
      modifies this
      ensures (View(), sends) == OnTimeout(old(View()), now, ok)
      ensures sends != [] <==> old(sentRequestCount) < 5 && (unicast || old(sentRoundId) == 0)
      ensures sends == [] ==> View() == Blank(roundId) && roundId == old(roundId)
      ensures sends != [] ==>
        && |sends| == 1 && sends[0].msg.kind == (if unicast && old(sessionState) == HAILING then HAIL else REQUEST)
        && View() == old(View()).(sentRequestCount := old(sentRequestCount) + 1,
                                  sentMsgTime := if ok then now else old(sentMsgTime),
                                  sentRoundId := if ok then roundId else old(sentRoundId))
      ensures KeepsTimer(old(View()), View()) && KeepsMark(old(View()), View(), sends)
      ensures KeepsBudget(old(View()), View(), sends, false)
    {
      TimeoutKeeps(View(), now, ok);
      TimeoutIs(View(), now, ok);
      hide KeepsTimer, KeepsMark, KeepsBudget, MeasuredRtt, ReportsOf, ListsWhatConcerns, LastOnMine, OnMine,
           HasFeedback;
      sends := [];
      if sentRequestCount < REQUEST_COUNT_MAX && (unicast || sentRoundId == 0) {
        if unicast && sessionState == HAILING {
          sends := SendMessage(HAIL, now, ok);
        } else {
          sends := SendMessage(REQUEST, now, ok);
        }
        sentRequestCount := sentRequestCount + 1;
      } else {
        timerActive := false;
        ResetTo(roundId);
      }
      assert (View(), sends) == OnTimeout(old(View()), now, ok);
      hide OnTimeout, AfterSend, Reset;
    }

    lemma TimeoutIs(s: Session, now: int, ok: bool)
      requires !s.state.IDLE? && s.unicast == unicast && s.peer == peer && s.local == local
      ensures var (t, sends) := OnTimeout(s, now, ok);
        && (sends != [] <==> s.sentRequestCount < 5 && (unicast || s.sentRoundId == 0))
        && (sends == [] ==> t == Blank(s.roundId))
        && (sends != [] ==>
              && |sends| == 1 && sends[0].msg.kind == (if unicast && s.state == HAILING then HAIL else REQUEST)
              && t == s.(sentRequestCount := s.sentRequestCount + 1,
                         sentMsgTime := if ok then now else s.sentMsgTime,
                         sentRoundId := if ok then s.roundId else s.sentRoundId))
    {
      hide ReportsOf;
    }

    /** Leaves an active session alone. An idle one becomes active with one attempt, but its timer only runs if that
        attempt got through. */
    method Start(now: int, ok: bool) returns (sends: seq<Send>)
      modifies this
      ensures (View(), sends) == OnInitiate(old(View()), now, ok)
      ensures old(sessionState) != IDLE ==> View() == old(View()) && sends == []
      ensures old(sessionState) == IDLE ==>
        && |sends| == 1 && sends[0].msg.kind == (if unicast then HAIL else REQUEST) && sends[0].msg.reports == []
        && View() == Blank(old(roundId)).(state := if unicast then HAILING else CONNECTED,
                                          timerActive := old(timerActive) || ok,
                                          sentMsgTime := if ok then now else 0,
                                          sentRoundId := if ok then old(roundId) else 0)
      ensures InStep(old(View())) ==> (InStep(View()) <==> !FailsToStart(old(View()), Initiate(now, ok)))
      ensures unicast && old(sessionState) == IDLE ==> WithinBudget(View(), 1, 0)
      ensures KeepsMark(old(View()), View(), sends)
    {
      StepKeeps(View(), Initiate(now, ok));
      hide KeepsMark, ListsWhatConcerns, LastOnMine, OnMine, HasFeedback;
      if sessionState != IDLE {
        return [];
      }
      ResetTo(roundId);
      if unicast {
        sessionState := HAILING;
        sends := SendMessage(HAIL, now, ok);
      } else {
        sessionState := CONNECTED;
        sends := SendMessage(REQUEST, now, ok);
      }
      if ok {
        timerActive := true;
      }
    }
  }
}
