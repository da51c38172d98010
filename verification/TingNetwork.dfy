/** Two hosts that ting each other over a network which may delay, drop, duplicate and reorder packets, with clocks
    that differ by a constant. */
module TingNetwork {
  import opened TingModel

  datatype Packet = Packet(from: nat, msg: Message)

  /** A packet reaching the other host at a moment of true time. */
  datatype Delivery = Delivery(packet: Packet, at: int)

  datatype Slot = NoSession | Open(session: Session)

  /** now is true time; host h (0 or 1) reads now + offset[h] on its clock. */
  datatype World = World(now: int, offset: seq<int>, slot: seq<Slot>, packets: set<Packet>, deliveries: set<Delivery>)

  datatype Action =
    | Wait(d: nat)
    | Begin(host: nat, roundId: nat, ok: bool)
    | Deliver(packet: Packet, ok: bool)
    | Expire(host: nat, ok: bool)

  ghost predicate Shaped(w: World) {
    |w.offset| == 2 && |w.slot| == 2
  }

  function Clock(w: World, h: nat): int
    requires h < |w.offset|
  {
    w.now + w.offset[h]
  }

  ghost predicate Possible(w: World, a: Action)
    requires Shaped(w)
  {
    match a
    case Wait(d) => true
    case Begin(h, roundId, ok) => h < 2 && roundId != 0
    case Deliver(p, ok) => p in w.packets && p.from < 2
    case Expire(h, ok) => h < 2 && w.slot[h].Open? && w.slot[h].session.timerActive
  }

  function Sent(h: nat, sends: seq<Send>): set<Packet> {
    if sends != [] && sends[0].ok then {Packet(h, sends[0].msg)} else {}
  }

  /** Lets the session of host h take an event. */
  ghost function Handle(w: World, h: nat, s: Session, e: Event): World
    requires Shaped(w) && h < 2
  {
    var (after, sends) := Step(s, e);
    w.(slot := w.slot[h := Open(after)], packets := w.packets + Sent(h, sends))
  }

  /** The session that a start or an arriving HAIL finds or creates. */
  function SessionFor(w: World, h: nat, roundId: nat): Session
    requires |w.slot| == 2 && h < 2
  {
    if w.slot[h].Open? then w.slot[h].session else NewSession(true, 1 - h, {h}, roundId)
  }

  ghost function Next(w: World, a: Action): World
    requires Shaped(w) && Possible(w, a)
  {
    match a
    case Wait(d) => w.(now := w.now + d)
    case Begin(h, roundId, ok) => Handle(w, h, SessionFor(w, h, roundId), Initiate(Clock(w, h), ok))
    case Expire(h, ok) => Handle(w, h, w.slot[h].session, Timeout(Clock(w, h), ok))
    case Deliver(p, ok) =>
      var h := 1 - p.from;
      var w1 := w.(deliveries := w.deliveries + {Delivery(p, w.now)});
      if w.slot[h].NoSession? && (!p.msg.kind.HAIL? || p.msg.roundId == 0) then w1
      else Handle(w1, h, SessionFor(w, h, p.msg.roundId), Arrive(p.msg, p.from, Clock(w, h), ok))
  }

  // ----- what is true of the packets and the observations

  function SentAt(w: World, p: Packet): int
    requires |w.offset| == 2 && p.from < 2
  {
    p.msg.sentTime - w.offset[p.from]
  }

  function Delay(w: World, d: Delivery): int
    requires |w.offset| == 2 && d.packet.from < 2
  {
    d.at - SentAt(w, d.packet)
  }

  /** Host h saw the delivery d: of a message sent at ref on the other clock, at obs on its own. */
  ghost predicate Saw(w: World, h: nat, d: Delivery, ref: int, obs: int)
    requires |w.offset| == 2
  {
    && h < 2 && d in w.deliveries && d.packet.from == 1 - h
    && d.packet.msg.sentTime == ref && d.at + w.offset[h] == obs
  }

  ghost predicate GoodDelivery(w: World, d: Delivery)
    requires |w.offset| == 2
  {
    d.packet.from < 2 && d.packet in w.packets && SentAt(w, d.packet) <= d.at <= w.now
  }

  /** The report is about a message of the other host that had arrived before the packet was sent. */
  ghost predicate GoodReport(w: World, p: Packet, r: Report)
    requires |w.offset| == 2 && p.from < 2
  {
    r.about == 1 - p.from && exists d :: Saw(w, p.from, d, r.refTime, r.obsTime) && d.at <= SentAt(w, p)
  }

  ghost predicate GoodPacket(w: World, p: Packet)
    requires |w.offset| == 2
  {
    && p.from < 2 && p.msg.unicast && SentAt(w, p) <= w.now
    && forall r | r in p.msg.reports :: GoodReport(w, p, r)
  }

  /** rtt is the delay of a message of h plus the delay of the later message that brought the observation. */
  ghost predicate IsRoundTrip(w: World, h: nat, o: Observation, there: Delivery, back: Delivery)
    requires |w.offset| == 2 && h < 2
  {
    && Saw(w, 1 - h, there, there.packet.msg.sentTime, there.at + w.offset[1 - h])
    && Saw(w, h, back, o.refTime, o.obsTime)
    && there.at <= SentAt(w, back.packet)
    && o.rtt == Delay(w, there) + Delay(w, back)
  }

  ghost predicate GoodObservation(w: World, h: nat, o: Observation)
    requires |w.offset| == 2 && h < 2
  {
    && o.src == 1 - h
    && (exists d :: Saw(w, h, d, o.refTime, o.obsTime))
    && (o.rtt == UNDETERMINED || exists there, back :: IsRoundTrip(w, h, o, there, back))
  }

  ghost predicate GoodSession(w: World, h: nat, s: Session)
    requires |w.offset| == 2 && h < 2
  {
    && s.unicast && s.peer == 1 - h && s.local == {h}
    && forall o | o in s.observations :: GoodObservation(w, h, o)
  }

  ghost predicate Truthful(w: World) {
    && Shaped(w)
    && (forall p | p in w.packets :: GoodPacket(w, p))
    && (forall d | d in w.deliveries :: GoodDelivery(w, d))
    && (forall h: nat | h < 2 && w.slot[h].Open? :: GoodSession(w, h, w.slot[h].session))
  }

  // ----- the steps keep it true

  lemma {:induction false} ReportsAreObservations(s: Session, from: nat, n: nat, r: Report)
    requires from <= |s.observations| && r in ReportsOf(s, from, n)
    ensures exists o :: o in s.observations && r == Report(o.src, o.roundId, o.refTime, o.obsTime, o.rtt)
    decreases |s.observations| - from
  {
    var o := s.observations[from];
    if s.unicast && o.src != s.peer {
      ReportsAreObservations(s, from + 1, n, r);
    } else if r != Report(o.src, o.roundId, o.refTime, o.obsTime, o.rtt) {
      ReportsAreObservations(s, from + 1, n - 1, r);
    }
  }

  lemma {:induction false} SameReports(s: Session, t: Session, from: nat, n: nat)
    requires s.unicast == t.unicast && s.peer == t.peer && s.observations == t.observations && from <= |s.observations|
    ensures ReportsOf(s, from, n) == ReportsOf(t, from, n)
    decreases |s.observations| - from
  {
    if n > 0 && from < |s.observations| {
      SameReports(s, t, from + 1, n);
      SameReports(s, t, from + 1, n - 1);
    }
  }

  function NewObservation(s: Session, msg: Message, src: nat, now: int): Observation {
    Observation(src, msg.roundId, msg.sentTime, now, MeasuredRtt(s, msg, now, |msg.reports|))
  }

  /** All that the network needs to know of a session's step. */
  lemma StepFacts(s: Session, e: Event)
    requires s.unicast
    ensures var (after, sends) := Step(s, e);
      && after.unicast && after.peer == s.peer && after.local == s.local
      && (forall o | o in after.observations ::
        o in s.observations || (e.Arrive? && o == NewObservation(s, e.msg, e.src, e.now)))
      && (sends != [] ==> sends[0].msg.unicast && sends[0].msg.sentTime == e.now)
  {
    hide ReportsOf, MeasuredRtt, HasFeedback;
  }

  lemma SentReports(s: Session, e: Event, r: Report)
    requires s.unicast
    requires var (after, sends) := Step(s, e); sends != [] && sends[0].ok && r in sends[0].msg.reports
    ensures exists o :: o in Step(s, e).0.observations && r == Report(o.src, o.roundId, o.refTime, o.obsTime, o.rtt)
  {
    var after := Step(s, e).0;
    forall t: Session | t.unicast == after.unicast && t.peer == after.peer && t.observations == after.observations
      ensures ReportsOf(t, 0, REPORT_COUNT_MAX) == ReportsOf(after, 0, REPORT_COUNT_MAX)
    {
      SameReports(t, after, 0, REPORT_COUNT_MAX);
    }
    hide ReportsOf, MeasuredRtt, HasFeedback;
    ReportsAreObservations(after, 0, REPORT_COUNT_MAX, r);
  }

  /** What a good delivery, session or report says stays true as more packets and deliveries are added later. */
  ghost predicate Extends(w: World, v: World) {
    Shaped(w) && Shaped(v) && w.offset == v.offset && w.now <= v.now && w.packets <= v.packets &&
      w.deliveries <= v.deliveries
  }

  lemma SessionStaysGood(w: World, v: World, h: nat, s: Session)
    requires Extends(w, v) && h < 2 && GoodSession(w, h, s)
    ensures GoodSession(v, h, s)
  {
    forall o | o in s.observations ensures GoodObservation(v, h, o) {
      assert GoodObservation(w, h, o);
      var d :| Saw(w, h, d, o.refTime, o.obsTime);
      assert Saw(v, h, d, o.refTime, o.obsTime);
      if o.rtt != UNDETERMINED {
        var there, back :| IsRoundTrip(w, h, o, there, back);
        assert IsRoundTrip(v, h, o, there, back);
      }
    }
  }

  lemma PacketStaysGood(w: World, v: World, p: Packet)
    requires Extends(w, v) && GoodPacket(w, p)
    ensures GoodPacket(v, p)
  {
    forall r | r in p.msg.reports ensures GoodReport(v, p, r) {
      assert GoodReport(w, p, r);
      var d :| Saw(w, p.from, d, r.refTime, r.obsTime) && d.at <= SentAt(w, p);
      assert Saw(v, p.from, d, r.refTime, r.obsTime);
    }
  }

  lemma {:induction false} MeasuredFromFeedback(s: Session, msg: Message, now: int, k: nat)
    requires k <= |msg.reports|
    ensures MeasuredRtt(s, msg, now, k) == UNDETERMINED
      || exists j ::
           0 <= j < k && IsFeedback(s, msg.reports[j])
           && MeasuredRtt(s, msg, now, k) == RoundTrip(msg, msg.reports[j], now)
  {
    if k > 0 && !IsFeedback(s, msg.reports[k - 1]) {
      MeasuredFromFeedback(s, msg, now, k - 1);
    }
  }

  /** The observation of an arriving packet is good: its round-trip time is two real delays. */
  lemma NewObservationIsGood(w: World, h: nat, s: Session, p: Packet)
    requires Shaped(w) && h < 2 && p.from == 1 - h && GoodPacket(w, p) && s.unicast
    requires Delivery(p, w.now) in w.deliveries
    ensures GoodObservation(w, h, NewObservation(s, p.msg, p.from, Clock(w, h)))
  {
    var o := NewObservation(s, p.msg, p.from, Clock(w, h));
    var back := Delivery(p, w.now);
    assert Saw(w, h, back, o.refTime, o.obsTime);
    MeasuredFromFeedback(s, p.msg, Clock(w, h), |p.msg.reports|);
    if o.rtt != UNDETERMINED {
      var j :| 0 <= j < |p.msg.reports| && IsFeedback(s, p.msg.reports[j]) &&
        o.rtt == RoundTrip(p.msg, p.msg.reports[j], Clock(w, h));
      var r := p.msg.reports[j];
      assert GoodReport(w, p, r);
      var there :| Saw(w, p.from, there, r.refTime, r.obsTime) && there.at <= SentAt(w, p);
      assert IsRoundTrip(w, h, o, there, back);
    }
  }

  lemma HandlingIsTruthful(w: World, h: nat, s: Session, e: Event)
    requires Truthful(w) && h < 2 && GoodSession(w, h, s) && e.now == Clock(w, h)
    requires e.Arrive? ==> e.src == 1 - h && GoodPacket(w, Packet(e.src, e.msg))
    requires e.Arrive? ==> Delivery(Packet(e.src, e.msg), w.now) in w.deliveries
    ensures Truthful(Handle(w, h, s, e))
  {
    hide Step, GoodReport;
    StepFacts(s, e);
    var (after, sends) := Step(s, e);
    var v := Handle(w, h, s, e);
    if e.Arrive? {
      NewObservationIsGood(w, h, s, Packet(e.src, e.msg));
    }
    assert GoodSession(w, h, after);
    SessionStaysGood(w, v, h, after);
    if w.slot[1 - h].Open? {
      SessionStaysGood(w, v, 1 - h, w.slot[1 - h].session);
    }
    forall p | p in w.packets ensures GoodPacket(v, p) {
      PacketStaysGood(w, v, p);
    }
    if sends != [] && sends[0].ok {
      forall r | r in sends[0].msg.reports
        ensures exists o :: o in after.observations && r == Report(o.src, o.roundId, o.refTime, o.obsTime, o.rtt)
      {
        SentReports(s, e, r);
      }
      NewPacketIsGood(w, h, after, Packet(h, sends[0].msg));
      PacketStaysGood(w, v, Packet(h, sends[0].msg));
    }
  }

  lemma NewPacketIsGood(w: World, h: nat, s: Session, p: Packet)
    requires Truthful(w) && h < 2 && GoodSession(w, h, s) && p.from == h && p.msg.unicast &&
      p.msg.sentTime == Clock(w, h)
    requires forall r | r in p.msg.reports ::
      exists o :: o in s.observations && r == Report(o.src, o.roundId, o.refTime, o.obsTime, o.rtt)
    ensures GoodPacket(w, p)
  {
    forall r | r in p.msg.reports ensures GoodReport(w, p, r) {
      var o :| o in s.observations && r == Report(o.src, o.roundId, o.refTime, o.obsTime, o.rtt);
      assert GoodObservation(w, h, o);
      var d :| Saw(w, h, d, o.refTime, o.obsTime);
      assert GoodDelivery(w, d);
    }
  }

  lemma NextIsTruthful(w: World, a: Action)
    requires Truthful(w) && Possible(w, a)
    ensures Truthful(Next(w, a))
  {
    hide Step, Handle, GoodReport, GoodObservation;
    match a
    case Wait(d) =>
      Delivering(w, w.(now := w.now + d));
    case Begin(h, roundId, ok) =>
      HandlingIsTruthful(w, h, SessionFor(w, h, roundId), Initiate(Clock(w, h), ok));
    case Expire(h, ok) =>
      HandlingIsTruthful(w, h, w.slot[h].session, Timeout(Clock(w, h), ok));
    case Deliver(p, ok) =>
      var h := 1 - p.from;
      var w1 := w.(deliveries := w.deliveries + {Delivery(p, w.now)});
      assert GoodPacket(w, p) && GoodDelivery(w1, Delivery(p, w.now));
      Delivering(w, w1);
      if !(w.slot[h].NoSession? && (!p.msg.kind.HAIL? || p.msg.roundId == 0)) {
        PacketStaysGood(w, w1, p);
        HandlingIsTruthful(w1, h, SessionFor(w, h, p.msg.roundId), Arrive(p.msg, p.from, Clock(w, h), ok));
      }
  }

  lemma Delivering(w: World, v: World)
    requires Truthful(w) && Extends(w, v) && v.slot == w.slot && v.packets == w.packets
    requires forall d | d in v.deliveries :: d in w.deliveries || GoodDelivery(v, d)
    ensures Truthful(v)
  {
    hide GoodReport, GoodObservation;
    forall p | p in v.packets ensures GoodPacket(v, p) {
      PacketStaysGood(w, v, p);
    }
    forall h: nat | h < 2 && v.slot[h].Open? ensures GoodSession(v, h, v.slot[h].session) {
      SessionStaysGood(w, v, h, v.slot[h].session);
    }
  }

  // ----- whole runs

  ghost predicate Leads(v: World, a: Action, w: World) {
    Shaped(v) && Possible(v, a) && w == Next(v, a)
  }

  datatype Run = Start(offset: seq<int>, now: int) | Then(before: Run, action: Action)

  function Offset(run: Run): seq<int> {
    if run.Start? then run.offset else Offset(run.before)
  }

  /** run leads to w from two hosts that have not talked yet. */
  ghost predicate Reaches(run: Run, w: World) {
    match run
    case Start(offset, now) => |offset| == 2 && w == World(now, offset, [NoSession, NoSession], {}, {})
    case Then(before, a) => exists v :: Reaches(before, v) && Leads(v, a, w)
  }

  lemma {:induction false} ReachedIsTruthful(run: Run, w: World)
    requires Reaches(run, w)
    ensures Truthful(w) && w.offset == Offset(run)
  {
    if run.Then? {
      var v :| Reaches(run.before, v) && Leads(v, run.action, w);
      hide Next, Truthful;
      ReachedIsTruthful(run.before, v);
      NextIsTruthful(v, run.action);
      NextKeepsOffset(v, run.action);
    }
  }

  lemma NextKeepsOffset(w: World, a: Action)
    requires Shaped(w) && Possible(w, a)
    ensures Next(w, a).offset == w.offset
  {
  }

  /** In every reachable state, each round-trip time on record is the sum of two delays that really occurred, so it is
      never negative and never mistaken for the mark of an undetermined one; and the clock offset computed from it is
      within half of it of the true offset (stated twofold, to stay in whole numbers). */
  lemma RoundTripTimesAreReal(run: Run, w: World, h: nat, o: Observation)
    requires Reaches(run, w) && Shaped(w)
    requires h < 2 && w.slot[h].Open? && o in w.slot[h].session.observations
    ensures o.rtt < 0 <==> o.rtt == UNDETERMINED
    ensures o.rtt >= 0 ==> exists there, back ::
      IsRoundTrip(w, h, o, there, back) && Delay(w, there) >= 0 && Delay(w, back) >= 0
    ensures o.rtt >= 0 ==>
      var twiceOffset := 2 * (o.obsTime - o.refTime) - o.rtt;
      -o.rtt <= twiceOffset - 2 * (w.offset[h] - w.offset[1 - h]) <= o.rtt
  {
    ReachedIsTruthful(run, w);
    hide Reaches, GoodPacket;
    assert GoodSession(w, h, w.slot[h].session);
    TwoRealDelays(w, h, o);
  }

  lemma TwoRealDelays(w: World, h: nat, o: Observation)
    requires Shaped(w) && h < 2 && GoodObservation(w, h, o) && forall d | d in w.deliveries :: GoodDelivery(w, d)
    ensures o.rtt < 0 <==> o.rtt == UNDETERMINED
    ensures o.rtt >= 0 ==> exists there, back ::
      IsRoundTrip(w, h, o, there, back) && Delay(w, there) >= 0 && Delay(w, back) >= 0
    ensures o.rtt >= 0 ==>
      var twiceOffset := 2 * (o.obsTime - o.refTime) - o.rtt;
      -o.rtt <= twiceOffset - 2 * (w.offset[h] - w.offset[1 - h]) <= o.rtt
  {
    if o.rtt != UNDETERMINED {
      var there, back :| IsRoundTrip(w, h, o, there, back);
      assert GoodDelivery(w, there) && GoodDelivery(w, back);
    }
  }

  // ----- an undisturbed exchange

  /** A host that starts is HAILING and has sent a HAIL. */
  lemma Starting(id: nat, c: int)
    ensures Step(NewSession(true, 1, {0}, id), Initiate(c, true)) ==
            (Session(true, 1, {0}, HAILING, id, id, c, 0, 0, [], true), [Send(Message(HAIL, true, id, c, []), true)])
  {
  }

  /** Its peer answers with a REPLY, from a session that it opens for that. */
  lemma Answering(id: nat, sent: int, c: int)
    requires id != 0
    ensures Step(NewSession(true, 0, {1}, id), Arrive(Message(HAIL, true, id, sent, []), 0, c, true)) ==
            (Session(true, 0, {1}, CONNECTED, id, id, c, 5, 0, [], true), [Send(Message(REPLY, true, id, c, []), true)])
  {
  }

  function Hailing(id: nat, sent: int): Session {
    Session(true, 1, {0}, HAILING, id, id, sent, 0, 0, [], true)
  }

  function Answered(id: nat, sent: int): Session {
    Session(true, 0, {1}, CONNECTED, id, id, sent, 5, 0, [], true)
  }

  /** The first REPLY measures nothing, but the REQUEST that it draws reports on it. */
  lemma Requesting(id: nat, hailed: int, replied: int, c: int)
    requires id != 0
    ensures Step(Hailing(id, hailed), Arrive(Message(REPLY, true, id, replied, []), 1, c, true)) ==
            (Session(true, 1, {0}, HAILING, id, id, c, 0, 1, [Observation(1, id, replied, c, -1)], true),
             [Send(Message(REQUEST, true, id, c, [Report(1, id, replied, c, -1)]), true)])
  {
    var s := Hailing(id, hailed);
    var t := Recorded(s, Message(REPLY, true, id, replied, []), 1, c);
    OneReport(t.(requestRoundCount := 1, sentRequestCount := 0), Observation(1, id, replied, c, -1));
    hide ReportsOf;
  }

  lemma OneReport(s: Session, o: Observation)
    requires s.observations == [o] && o.src == s.peer
    ensures ReportsOf(s, 0, REPORT_COUNT_MAX) == [Report(o.src, o.roundId, o.refTime, o.obsTime, o.rtt)]
  {
    assert ReportsOf(s, 1, REPORT_COUNT_MAX - 1) == [];
  }

  /** The REQUEST gives the peer its round-trip time, which its next REPLY reports back. */
  lemma Measuring(id: nat, replied: int, requested: int, heard: int, c: int)
    requires id != 0
    ensures var rtt := (c - replied) - (requested - heard);
      Step(Answered(id, replied),
           Arrive(Message(REQUEST, true, id, requested, [Report(1, id, replied, heard, -1)]), 0, c, true)) ==
      (Session(true, 0, {1}, CONNECTED, id, id, c, 5, 0, [Observation(0, id, requested, c, rtt)], true),
       [Send(Message(REPLY, true, id, c, [Report(0, id, requested, c, rtt)]), true)])
  {
    var s := Answered(id, replied);
    var msg := Message(REQUEST, true, id, requested, [Report(1, id, replied, heard, -1)]);
    assert IsFeedback(s, msg.reports[0]);
    var t := Recorded(s, msg, 0, c);
    OneReport(t, t.observations[0]);
    hide ReportsOf;
  }

  /** That REPLY gives the first host its own. */
  lemma MeasuringBack(s: Session, id: nat, replied: int, heard: int, rtt: int, c: int)
    requires id != 0 && s.unicast && s.state.HAILING? && s.roundId == id && s.local == {0}
    ensures var (after, _) :=
        Step(s, Arrive(Message(REPLY, true, id, replied, [Report(0, id, s.sentMsgTime, heard, rtt)]), 1, c, true));
      exists o :: o in after.observations && o.rtt == (c - s.sentMsgTime) - (replied - heard)
  {
    var msg := Message(REPLY, true, id, replied, [Report(0, id, s.sentMsgTime, heard, rtt)]);
    assert IsFeedback(s, msg.reports[0]);
    var t := Recorded(s, msg, 1, c);
    assert t.observations[|s.observations|] in t.observations;
    hide ReportsOf;
  }

  lemma NextBegin(w: World, id: nat)
    requires Shaped(w) && w.slot[0].NoSession? && id != 0
    ensures var (s, sends) := Step(NewSession(true, 1, {0}, id), Initiate(Clock(w, 0), true));
      var v := Next(w, Begin(0, id, true));
      && Shaped(v) && v.now == w.now && v.offset == w.offset && v.slot == [Open(s), w.slot[1]]
      && Sent(0, sends) <= v.packets
  {
    hide Step;
  }

  lemma NextDeliver(w: World, p: Packet)
    requires Shaped(w) && p in w.packets && p.from < 2
    requires w.slot[1 - p.from].Open? || (p.msg.kind.HAIL? && p.msg.roundId != 0)
    ensures var h := 1 - p.from;
      var (s, sends) := Step(SessionFor(w, h, p.msg.roundId), Arrive(p.msg, p.from, Clock(w, h), true));
      var v := Next(w, Deliver(p, true));
      && Shaped(v) && v.now == w.now && v.offset == w.offset && v.slot == w.slot[h := Open(s)]
      && Sent(h, sends) <= v.packets
  {
    hide Step;
  }

  // The four messages of the exchange, from the moments of true time at which they are sent.

  function HailAt(offset: seq<int>, id: nat, t: int): Packet
    requires |offset| == 2
  {
    Packet(0, Message(HAIL, true, id, t + offset[0], []))
  }

  function ReplyAt(offset: seq<int>, id: nat, t: int): Packet
    requires |offset| == 2
  {
    Packet(1, Message(REPLY, true, id, t + offset[1], []))
  }

  function RequestAt(offset: seq<int>, id: nat, replied: int, t: int): Packet
    requires |offset| == 2
  {
    Packet(0, Message(REQUEST, true, id, t + offset[0], [Report(1, id, replied + offset[1], t + offset[0], -1)]))
  }

  function LastAt(offset: seq<int>, id: nat, requested: int, rtt: int, t: int): Packet
    requires |offset| == 2
  {
    Packet(1, Message(REPLY, true, id, t + offset[1], [Report(0, id, requested + offset[0], t + offset[1], rtt)]))
  }

  function Delivered(run: Run, d: nat, p: Packet): Run {
    Then(Then(run, Wait(d)), Deliver(p, true))
  }

  /** Host 0 starts, and HAIL, REPLY, REQUEST and REPLY arrive after d1, d2, d3 and d4. */
  function Exchange(offset: seq<int>, t: int, id: nat, d1: nat, d2: nat, d3: nat, d4: nat): Run
    requires |offset| == 2
  {
    var t1, t2, t3 := t + d1, t + d1 + d2, t + d1 + d2 + d3;
    var started := Then(Start(offset, t), Begin(0, id, true));
    var hailed := Delivered(started, d1, HailAt(offset, id, t));
    var replied := Delivered(hailed, d2, ReplyAt(offset, id, t1));
    var requested := Delivered(replied, d3, RequestAt(offset, id, t1, t2));
    Delivered(requested, d4, LastAt(offset, id, t2, d2 + d3, t3))
  }

  /** For all clocks and delays, the exchange leaves host 1 with the delays of the first REPLY and the REQUEST on
      record, and host 0 with those of the REQUEST and the second REPLY. */
  lemma ExchangeMeasures(offset: seq<int>, t: int, id: nat, d1: nat, d2: nat, d3: nat, d4: nat) returns (w: World)
    requires |offset| == 2 && id != 0
    ensures Reaches(Exchange(offset, t, id, d1, d2, d3, d4), w)
    ensures Shaped(w) && w.slot[0].Open? && w.slot[1].Open?
    ensures exists o :: o in w.slot[1].session.observations && o.rtt == d2 + d3
    ensures exists o :: o in w.slot[0].session.observations && o.rtt == d3 + d4
  {
    hide Step, Next, Handle, Delivered, RequestAt, LastAt, ReplyAt, HailAt, Reaches;
    var t1, t2, t3 := t + d1, t + d1 + d2, t + d1 + d2 + d3;
    var run;
    run, w := HailIsSent(offset, t, id);
    run, w := HailArrives(run, w, id, t, d1);
    run, w := ReplyArrives(run, w, id, t, t1, d2);
    run, w := RequestArrives(run, w, id, t1, t2, d3);
    run, w := LastArrives(run, w, id, t2, d2 + d3, t3, d4);
  }

  lemma HailIsSent(offset: seq<int>, t: int, id: nat) returns (run: Run, w: World)
    requires |offset| == 2 && id != 0
    ensures run == Then(Start(offset, t), Begin(0, id, true)) && Reaches(run, w)
    ensures Shaped(w) && w.now == t && w.offset == offset && HailAt(offset, id, t) in w.packets
    ensures w.slot == [Open(Hailing(id, t + offset[0])), NoSession]
  {
    hide Step, Next, Handle;
    w := World(t, offset, [NoSession, NoSession], {}, {});
    run := Start(offset, t);
    assert Reaches(run, w);
    Starting(id, t + offset[0]);
    NextBegin(w, id);
    run, w := Going(run, w, Begin(0, id, true));
    assert HailAt(offset, id, t) in w.packets;
  }

  lemma HailArrives(run: Run, w: World, id: nat, t: int, d: nat) returns (more: Run, v: World)
    requires Reaches(run, w) && Shaped(w) && w.now == t && HailAt(w.offset, id, t) in w.packets && id != 0
    requires w.slot == [Open(Hailing(id, t + w.offset[0])), NoSession]
    ensures more == Delivered(run, d, HailAt(w.offset, id, t)) && Reaches(more, v)
    ensures Shaped(v) && v.now == t + d && v.offset == w.offset && ReplyAt(w.offset, id, t + d) in v.packets
    ensures v.slot == [Open(Hailing(id, t + w.offset[0])), Open(Answered(id, t + d + w.offset[1]))]
  {
    hide Step, Next, Handle, Reaches;
    more, v := Waiting(run, w, d);
    var p := HailAt(w.offset, id, t);
    Answering(id, t + w.offset[0], t + d + w.offset[1]);
    NextDeliver(v, p);
    more, v := Going(more, v, Deliver(p, true));
    assert ReplyAt(w.offset, id, t + d) in v.packets;
  }

  lemma ReplyArrives(run: Run, w: World, id: nat, t: int, t1: int, d: nat) returns (more: Run, v: World)
    requires Reaches(run, w) && Shaped(w) && w.now == t1 && ReplyAt(w.offset, id, t1) in w.packets && id != 0
    requires w.slot == [Open(Hailing(id, t + w.offset[0])), Open(Answered(id, t1 + w.offset[1]))]
    ensures more == Delivered(run, d, ReplyAt(w.offset, id, t1)) && Reaches(more, v)
    ensures Shaped(v) && v.now == t1 + d && v.offset == w.offset && RequestAt(w.offset, id, t1, t1 + d) in v.packets
    ensures Awaits(v, id, t1 + d) && v.slot[1] == Open(Answered(id, t1 + w.offset[1]))
  {
    hide Step, Next, Handle, Reaches;
    more, v := Waiting(run, w, d);
    var p := ReplyAt(w.offset, id, t1);
    Requesting(id, t + w.offset[0], t1 + w.offset[1], t1 + d + w.offset[0]);
    NextDeliver(v, p);
    more, v := Going(more, v, Deliver(p, true));
    assert RequestAt(w.offset, id, t1, t1 + d) in v.packets;
  }

  /** Host 0 has sent its last message at t. */
  ghost predicate Awaits(w: World, id: nat, t: int) {
    && Shaped(w) && w.slot[0].Open?
    && var s := w.slot[0].session;
       s.unicast && s.state.HAILING? && s.roundId == id && s.local == {0} && s.sentMsgTime == t + w.offset[0]
  }

  lemma RequestArrives(run: Run, w: World, id: nat, t1: int, t2: int, d: nat) returns (more: Run, v: World)
    requires Reaches(run, w) && Shaped(w) && w.now == t2 && RequestAt(w.offset, id, t1, t2) in w.packets && id != 0
    requires Awaits(w, id, t2) && w.slot[1] == Open(Answered(id, t1 + w.offset[1]))
    ensures more == Delivered(run, d, RequestAt(w.offset, id, t1, t2)) && Reaches(more, v)
    ensures Shaped(v) && v.now == t2 + d && v.offset == w.offset && Awaits(v, id, t2)
    ensures LastAt(w.offset, id, t2, t2 + d - t1, t2 + d) in v.packets
    ensures v.slot[1].Open? && exists o :: o in v.slot[1].session.observations && o.rtt == t2 + d - t1
  {
    hide Step, Next, Handle, Reaches;
    more, v := Waiting(run, w, d);
    var p := RequestAt(w.offset, id, t1, t2);
    var a, b := w.offset[0], w.offset[1];
    Measuring(id, t1 + b, t2 + a, t2 + a, t2 + d + b);
    NextDeliver(v, p);
    more, v := Going(more, v, Deliver(p, true));
    assert LastAt(w.offset, id, t2, t2 + d - t1, t2 + d) in v.packets;
    assert Observation(0, id, t2 + a, t2 + d + b, t2 + d - t1) in v.slot[1].session.observations;
  }

  lemma LastArrives(run: Run, w: World, id: nat, t2: int, rtt: int, t3: int, d: nat) returns (more: Run, v: World)
    requires Reaches(run, w) && Shaped(w) && w.now == t3 && LastAt(w.offset, id, t2, rtt, t3) in w.packets && id != 0
    requires Awaits(w, id, t2)
    ensures more == Delivered(run, d, LastAt(w.offset, id, t2, rtt, t3)) && Reaches(more, v)
    ensures Shaped(v) && v.slot[1] == w.slot[1]
    ensures v.slot[0].Open? && exists o :: o in v.slot[0].session.observations && o.rtt == t3 + d - t2
  {
    hide Step, Next, Handle, Reaches;
    more, v := Waiting(run, w, d);
    var p := LastAt(w.offset, id, t2, rtt, t3);
    MeasuringBack(v.slot[0].session, id, t3 + w.offset[1], t3 + w.offset[1], rtt, t3 + d + w.offset[0]);
    NextDeliver(v, p);
    more, v := Going(more, v, Deliver(p, true));
  }

  lemma Going(run: Run, w: World, a: Action) returns (more: Run, v: World)
    requires Reaches(run, w) && Shaped(w) && Possible(w, a)
    ensures more == Then(run, a) && v == Next(w, a) && Reaches(more, v)
  {
    more, v := Then(run, a), Next(w, a);
    hide Next, Possible;
    assert Reaches(run, w) && Leads(w, a, v);
  }

  lemma Waiting(run: Run, w: World, d: nat) returns (more: Run, v: World)
    requires Reaches(run, w) && Shaped(w)
    ensures more == Then(run, Wait(d)) && v == w.(now := w.now + d) && Reaches(more, v)
  {
    more, v := Going(run, w, Wait(d));
  }
}
