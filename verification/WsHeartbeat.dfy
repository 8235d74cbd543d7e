/** The heartbeat over whole runs: how late a silent peer is dropped, and that a talking one is kept. */
module WsHeartbeat {
  import opened Bytes
  import opened Incremental
  import opened WsReceive
  import opened WsHandshake
  import opened WsSystem

  /** The clamp that installing session options applies. */
  function SetSessionOptions(opt: Options): (r: Options)
    ensures r.heartbeatInterval == opt.heartbeatInterval <= r.heartbeatTimeout
    ensures opt.heartbeatTimeout <= r.heartbeatTimeout && r == opt.(heartbeatTimeout := r.heartbeatTimeout)
    ensures r.heartbeatTimeout == opt.heartbeatTimeout || r.heartbeatTimeout == opt.heartbeatInterval
  {
    if opt.heartbeatTimeout < opt.heartbeatInterval then opt.(heartbeatTimeout := opt.heartbeatInterval) else opt
  }

  /**
   * Time runs forward and the timer is at most `late` late: it fires no earlier than one interval after it was armed,
   * and nothing happens more than `late` after its expiry before it has fired.
   */
  predicate Timely(s: Sys, clock: int, e: Event, late: nat) {
    var sess := Session(s);
    && clock <= e.now
    && (sess.timer.Some? ==> e.now <= sess.timer.value + sess.opt.heartbeatInterval + late)
    && (e.action.TimerFires? && sess.timer.Some? ==> sess.timer.value + sess.opt.heartbeatInterval <= e.now)
  }

  ghost predicate TimelyRun(upgrade: UpgradeCheck, s: Sys, clock: int, events: seq<Event>, late: nat)
    requires Possible(upgrade, s, events)
    decreases |events|
  {
    events == [] ||
    (Timely(s, clock, events[0], late)
     && TimelyRun(upgrade, Apply(upgrade, s, events[0]), events[0].now, events[1..], late))
  }

  function Clock(clock: int, events: seq<Event>): int {
    if events == [] then clock else events[|events| - 1].now
  }

  function Max(a: int, b: int): int {
    if a < b then b else a
  }

  /** How long after the last activity the timer can have been armed. */
  function ArmedBy(opt: Options, awaitingPong: bool, late: nat): int {
    if awaitingPong then Max(opt.heartbeatTimeout, 2 * opt.heartbeatInterval + late) else opt.heartbeatInterval
  }

  predicate HeartbeatOk(s: Sys, clock: int, late: nat) {
    var sess := Session(s);
    sess.state == Active ==>
      && sess.timer.Some?
      && sess.timer.value <= clock && s.beat.lastActivity <= clock
      && sess.timer.value <= s.beat.lastActivity + ArmedBy(sess.opt, s.beat.awaitingPong, late)
  }

  lemma FrameStepKeepsTimer(s: Sess, buf: seq<byte>)
    requires FrameStep(s, buf) != Wait
    ensures var s' := FrameStep(s, buf).state; s'.timer == s.timer || s'.state == Closed
  {
  }

  /** Frames leave the timer of a session that stays Active alone. */
  lemma {:induction false} ProcessKeepsTimer(s: Sess, buf: seq<byte>)
    ensures var s' := ProcessFrameBuffer(s, buf).sess; s'.timer == s.timer || s'.state == Closed
    decreases |buf|
  {
    hide FrameStep;
    FrameStepProductive();
    if FrameStep(s, buf) != Wait {
      FrameStepKeepsTimer(s, buf);
      if FrameStep(s, buf).Next? {
        var s', rest := FrameStep(s, buf).state, buf[FrameStep(s, buf).used..];
        ProcessKeepsTimer(s', rest);
        ProcessEvolves(s', rest);
      }
    }
  }

  /** A session that is Active after a read either was Active, with the same timer, or has just been opened. */
  lemma ArriveTimer(upgrade: UpgradeCheck, c: Conn, chunk: seq<byte>, replyOk: bool, now: int)
    ensures var s, s' := c.rcv.sess, Arrive(upgrade, c, chunk, replyOk, now).rcv.sess;
            s'.state == Active ==>
              || (s.state == Active && s'.timer == s.timer)
              || (s.state == Handshaking && s'.timer == Some(now) && s'.refreshes > s.refreshes)
  {
    hide ProcessFrameBuffer, FirstEnd;
    var s := c.rcv.sess;
    if s.state == Handshaking {
      var buf := c.handshake + chunk;
      var end := FirstEnd(buf, 0);
      if end.Some? {
        assert end.value + 4 <= |buf| by { EndInside(buf); }
        var rest := c.rcv.buf + buf[end.value + 4..];
        ProcessKeepsTimer(Opened(s, now), rest);
        ProcessEvolves(Opened(s, now), rest);
      }
    } else {
      ProcessKeepsTimer(s, c.rcv.buf + chunk);
      ProcessEvolves(s, c.rcv.buf + chunk);
    }
  }

  lemma ArriveKeepsHeartbeat(upgrade: UpgradeCheck, s: Sys, clock: int, e: Event, late: nat)
    requires e.action.Arrives?
    requires HeartbeatOk(s, clock, late) && Timely(s, clock, e, late) && Enabled(s, e.action)
    ensures HeartbeatOk(Apply(upgrade, s, e), e.now, late)
  {
    hide Arrive;
    ArriveTimer(upgrade, s.conn, e.action.chunk, e.action.replyOk, e.now);
    ArriveEvolves(upgrade, s.conn, e.action.chunk, e.action.replyOk, e.now);
  }

  lemma TimerKeepsHeartbeat(upgrade: UpgradeCheck, s: Sys, clock: int, e: Event, late: nat)
    requires e.action.TimerFires?
    requires HeartbeatOk(s, clock, late) && Timely(s, clock, e, late) && Enabled(s, e.action)
    ensures HeartbeatOk(Apply(upgrade, s, e), e.now, late)
  {
  }

  lemma StepKeepsHeartbeat(upgrade: UpgradeCheck, s: Sys, clock: int, e: Event, late: nat)
    requires HeartbeatOk(s, clock, late) && Timely(s, clock, e, late) && Enabled(s, e.action)
    ensures HeartbeatOk(Apply(upgrade, s, e), e.now, late)
  {
    hide Arrive, OnTimer, CloseItem;
    match e.action
    case Arrives(_, _) => ArriveKeepsHeartbeat(upgrade, s, clock, e, late);
    case TimerFires => TimerKeepsHeartbeat(upgrade, s, clock, e, late);
    case _ =>
  }

  lemma {:induction false} RunKeepsHeartbeat(upgrade: UpgradeCheck, s: Sys, clock: int, events: seq<Event>, late: nat)
    requires Possible(upgrade, s, events) && TimelyRun(upgrade, s, clock, events, late)
    requires HeartbeatOk(s, clock, late)
    ensures HeartbeatOk(Execute(upgrade, s, events), Clock(clock, events), late)
    decreases |events|
  {
    hide HeartbeatOk, Timely, Apply, Enabled;
    if events != [] {
      var e := events[0];
      StepKeepsHeartbeat(upgrade, s, clock, e, late);
      RunKeepsHeartbeat(upgrade, Apply(upgrade, s, e), e.now, events[1..], late);
      assert Clock(e.now, events[1..]) == Clock(clock, events);
    }
  }

  /** The number of times the heartbeat has closed the connection. */
  ghost function HeartbeatCloses(upgrade: UpgradeCheck, s: Sys, events: seq<Event>): nat
    requires Possible(upgrade, s, events)
    decreases |events|
  {
    if events == [] then 0
    else
      var s' := Apply(upgrade, s, events[0]);
      (if events[0].action.TimerFires? && Session(s').closes != Session(s).closes then 1 else 0)
      + HeartbeatCloses(upgrade, s', events[1..])
  }

  // ---- what has been heard of the peer, and when ---------------------------------------------------------------------

  /**
   * What an observer of a run knows: the times at which the handshake or a complete frame was accepted, and the time of
   * the automatic ping posted since then, if there was one.
   */
  datatype History = History(heard: seq<int>, pinged: Option<int>)

  const NOTHING := History([], None)

  ghost function Observe(upgrade: UpgradeCheck, s: Sys, h: History, e: Event): History
    requires Enabled(s, e.action)
  {
    var s' := Apply(upgrade, s, e);
    if Session(s').refreshes > Session(s).refreshes then History(h.heard + [e.now], None)
    else if e.action.TimerFires? && |Posted(s')| > |Posted(s)| then h.(pinged := Some(e.now))
    else h
  }

  ghost function Observed(upgrade: UpgradeCheck, s: Sys, h: History, events: seq<Event>): History
    requires Possible(upgrade, s, events)
    decreases |events|
  {
    if events == [] then h
    else Observed(upgrade, Apply(upgrade, s, events[0]), Observe(upgrade, s, h, events[0]), events[1..])
  }

  function Last(times: seq<int>): int
    requires times != []
  {
    times[|times| - 1]
  }

  /** The fields of the heartbeat are what the observer knows. */
  predicate Recalls(s: Sys, h: History) {
    && (Session(s).state == Active ==> h.heard != [])
    && (h.heard != [] ==> s.beat.lastActivity == Last(h.heard))
    && s.beat.awaitingPong == h.pinged.Some?
    && (h.pinged.Some? ==> h.heard != [] && h.pinged.value - Last(h.heard) >= Session(s).opt.heartbeatInterval)
  }

  lemma ArriveRecalled(upgrade: UpgradeCheck, s: Sys, h: History, e: Event)
    requires Recalls(s, h) && Enabled(s, e.action) && e.action.Arrives?
    ensures Recalls(Apply(upgrade, s, e), Observe(upgrade, s, h, e))
  {
    hide Arrive;
    ArriveTimer(upgrade, s.conn, e.action.chunk, e.action.replyOk, e.now);
    ArriveEvolves(upgrade, s.conn, e.action.chunk, e.action.replyOk, e.now);
  }

  lemma TimerRecalled(upgrade: UpgradeCheck, s: Sys, h: History, e: Event)
    requires Recalls(s, h) && Enabled(s, e.action) && e.action.TimerFires?
    ensures Recalls(Apply(upgrade, s, e), Observe(upgrade, s, h, e))
  {
    hide PingItem;
  }

  /** Every step keeps the fields in agreement with what was observed. */
  lemma StepRecalled(upgrade: UpgradeCheck, s: Sys, h: History, e: Event)
    requires Recalls(s, h) && Enabled(s, e.action)
    ensures Recalls(Apply(upgrade, s, e), Observe(upgrade, s, h, e))
  {
    hide Arrive, OnTimer, CloseItem;
    match e.action
    case Arrives(_, _) => ArriveRecalled(upgrade, s, h, e);
    case TimerFires => TimerRecalled(upgrade, s, h, e);
    case _ =>
  }

  lemma {:induction false} RunRecalled(upgrade: UpgradeCheck, s: Sys, h: History, events: seq<Event>)
    requires Possible(upgrade, s, events) && Recalls(s, h)
    ensures Recalls(Execute(upgrade, s, events), Observed(upgrade, s, h, events))
    decreases |events|
  {
    hide Recalls, Apply, Observe, Enabled;
    if events != [] {
      StepRecalled(upgrade, s, h, events[0]);
      RunRecalled(upgrade, Apply(upgrade, s, events[0]), Observe(upgrade, s, h, events[0]), events[1..]);
    }
  }

  /**
   * When the heartbeat closes, over all runs: a firing of the timer drops the connection if and only if the session is
   * Active, a ping has been posted since the peer was last heard, and that was at least the timeout ago.  The ping came
   * no sooner than one interval after the peer was last heard.
   */
  lemma HeartbeatClosesIff(upgrade: UpgradeCheck, opt: Options, events: seq<Event>, next: Event)
    requires Possible(upgrade, Start(opt), events)
    requires var s := Execute(upgrade, Start(opt), events); Enabled(s, next.action) && next.action.TimerFires?
    ensures var s, h := Execute(upgrade, Start(opt), events), Observed(upgrade, Start(opt), NOTHING, events);
            && (h.pinged.Some? ==> h.heard != [] && h.pinged.value - Last(h.heard) >= opt.heartbeatInterval)
            && (Session(Apply(upgrade, s, next)).closes != Session(s).closes <==>
                  && Session(s).state == Active && h.pinged.Some?
                  && next.now - Last(h.heard) >= opt.heartbeatTimeout)
  {
    hide Possible, Execute, Observed, Arrive, PingItem;
    RunRecalled(upgrade, Start(opt), NOTHING, events);
    RunKeepsOptions(upgrade, Start(opt), events);
  }

  /**
   * A silent peer is closed in time.  In every run whose timer is at most `late` late, a session in which anything still
   * happens while it is Active has heard from its peer at most timeout + 2 (interval + late) ago; that the timeout is
   * at least the interval is what the clamp on the options provides.
   */
  lemma SilentPeerIsClosed(upgrade: UpgradeCheck, opt: Options, clock: int, events: seq<Event>, next: Event, late: nat)
    requires Possible(upgrade, Start(SetSessionOptions(opt)), events)
    requires TimelyRun(upgrade, Start(SetSessionOptions(opt)), clock, events, late)
    ensures var o := SetSessionOptions(opt);
            var s, h := Execute(upgrade, Start(o), events), Observed(upgrade, Start(o), NOTHING, events);
            Session(s).state == Active && Timely(s, Clock(clock, events), next, late) ==>
              h.heard != [] && next.now <= Last(h.heard) + o.heartbeatTimeout + 2 * (o.heartbeatInterval + late)
  {
    hide Execute, Observed, Possible, TimelyRun;
    var o := SetSessionOptions(opt);
    RunKeepsHeartbeat(upgrade, Start(o), clock, events, late);
    RunKeepsOptions(upgrade, Start(o), events);
    RunRecalled(upgrade, Start(o), NOTHING, events);
  }

  // ---- a peer that keeps talking -------------------------------------------------------------------------------------

  /** Time runs forward. */
  predicate Forward(events: seq<Event>) {
    forall i, j :: 0 <= i < j < |events| ==> events[i].now <= events[j].now
  }

  /** Consecutive times, and the last of them and the end, are less than gap apart. */
  predicate Apart(times: seq<int>, end: Option<int>, gap: nat) {
    && (forall i :: 0 < i < |times| ==> times[i] - times[i - 1] < gap)
    && (times != [] && end.Some? ==> end.value - Last(times) < gap)
  }

  /** The time of the last event that finds the session Active. */
  ghost function LastActive(upgrade: UpgradeCheck, s: Sys, events: seq<Event>): Option<int>
    requires Possible(upgrade, s, events)
    decreases |events|
  {
    if events == [] then None
    else
      match LastActive(upgrade, Apply(upgrade, s, events[0]), events[1..])
      case Some(t) => Some(t)
      case None => if Session(s).state == Active then Some(events[0].now) else None
  }

  lemma {:induction false} ActiveUntil(upgrade: UpgradeCheck, s: Sys, events: seq<Event>, t: int)
    requires Possible(upgrade, s, events) && forall i :: 0 <= i < |events| ==> t <= events[i].now
    ensures LastActive(upgrade, s, events).Some? ==> t <= LastActive(upgrade, s, events).value
    decreases |events|
  {
    hide Apply, Enabled;
    if events != [] {
      ActiveUntil(upgrade, Apply(upgrade, s, events[0]), events[1..], t);
    }
  }

  /** What is heard later comes behind what was heard before. */
  lemma {:induction false} HeardLater(upgrade: UpgradeCheck, s: Sys, h: History, events: seq<Event>, t: int)
    requires Possible(upgrade, s, events) && forall i :: 0 <= i < |events| ==> t <= events[i].now
    ensures var all := Observed(upgrade, s, h, events).heard;
            h.heard <= all && forall k :: |h.heard| <= k < |all| ==> t <= all[k]
    decreases |events|
  {
    hide Apply, Enabled;
    if events != [] {
      HeardLater(upgrade, Apply(upgrade, s, events[0]), Observe(upgrade, s, h, events[0]), events[1..], t);
    }
  }

  /** At any event that finds the session Active, the peer was last heard less than the gap ago. */
  lemma HeardRecently(upgrade: UpgradeCheck, s: Sys, h: History, events: seq<Event>, gap: nat)
    requires Possible(upgrade, s, events) && events != [] && Forward(events)
    requires Session(s).state == Active && h.heard != []
    requires Apart(Observed(upgrade, s, h, events).heard, LastActive(upgrade, s, events), gap)
    ensures events[0].now - Last(h.heard) < gap
  {
    hide Apply, Enabled, Observe;
    var now, all := events[0].now, Observed(upgrade, s, h, events).heard;
    HeardLater(upgrade, s, h, events, now);
    ActiveUntil(upgrade, s, events, now);
    if |all| > |h.heard| {
      assert all[|h.heard|] - all[|h.heard| - 1] < gap;
    }
  }

  lemma StepKept(upgrade: UpgradeCheck, s: Sys, h: History, events: seq<Event>)
    requires Possible(upgrade, s, events) && events != [] && Forward(events) && Recalls(s, h)
    requires Apart(Observed(upgrade, s, h, events).heard, LastActive(upgrade, s, events), Session(s).opt.heartbeatTimeout)
    ensures events[0].action.TimerFires? ==> Session(Apply(upgrade, s, events[0])).closes == Session(s).closes
  {
    hide Observed, LastActive, Possible, Apart, PingItem, Arrive;
    if events[0].action.TimerFires? && Session(s).state == Active {
      HeardRecently(upgrade, s, h, events, Session(s).opt.heartbeatTimeout);
    }
  }

  lemma LaterApart(upgrade: UpgradeCheck, s: Sys, h: History, events: seq<Event>, gap: nat)
    requires Possible(upgrade, s, events) && events != []
    requires Apart(Observed(upgrade, s, h, events).heard, LastActive(upgrade, s, events), gap)
    ensures var s', h' := Apply(upgrade, s, events[0]), Observe(upgrade, s, h, events[0]);
            Apart(Observed(upgrade, s', h', events[1..]).heard, LastActive(upgrade, s', events[1..]), gap)
  {
    hide Apply, Observe, Enabled;
  }

  lemma {:induction false} RunKept(upgrade: UpgradeCheck, s: Sys, h: History, events: seq<Event>)
    requires Possible(upgrade, s, events) && Forward(events) && Recalls(s, h)
    requires Apart(Observed(upgrade, s, h, events).heard, LastActive(upgrade, s, events), Session(s).opt.heartbeatTimeout)
    ensures HeartbeatCloses(upgrade, s, events) == 0
    decreases |events|
  {
    hide Apply, Enabled, Observe, Apart, Recalls, LastActive, Observed;
    if events != [] {
      var s', h' := Apply(upgrade, s, events[0]), Observe(upgrade, s, h, events[0]);
      StepRecalled(upgrade, s, h, events[0]);
      StepEvolves(upgrade, s, events[0]);
      StepKept(upgrade, s, h, events);
      LaterApart(upgrade, s, h, events, Session(s).opt.heartbeatTimeout);
      RunKept(upgrade, s', h', events[1..]);
    }
  }

  /**
   * A peer that keeps talking is kept.  Over every run in which time runs forward: if the handshake and the complete
   * frames come less than the timeout apart, and the last of them less than the timeout before the last event that
   * finds the session Active, then the heartbeat never drops the connection.
   */
  lemma LivelyPeerIsKept(upgrade: UpgradeCheck, opt: Options, events: seq<Event>)
    requires Possible(upgrade, Start(opt), events) && Forward(events)
    requires Apart(Observed(upgrade, Start(opt), NOTHING, events).heard, LastActive(upgrade, Start(opt), events),
                   opt.heartbeatTimeout)
    ensures HeartbeatCloses(upgrade, Start(opt), events) == 0
  {
    hide Observed, LastActive, Possible, Apart, HeartbeatCloses;
    RunKept(upgrade, Start(opt), NOTHING, events);
  }

  // ---- the documented rule -------------------------------------------------------------------------------------------

  /** A run, and a firing of the timer after it that drops the connection. */
  ghost predicate DropsAfter(upgrade: UpgradeCheck, opt: Options, clock: int, events: seq<Event>, next: Event, late: nat) {
    && Possible(upgrade, Start(opt), events)
    && TimelyRun(upgrade, Start(opt), clock, events, late)
    && var s := Execute(upgrade, Start(opt), events);
       && next.action.TimerFires? && Enabled(s, next.action) && Timely(s, Clock(clock, events), next, late)
       && Session(Apply(upgrade, s, next)).closes != Session(s).closes
  }

  /** Whoever is dropped was pinged, and has had that much time to answer. */
  ghost predicate PingIsWaitedFor(upgrade: UpgradeCheck, opt: Options, late: nat, wait: nat) {
    forall clock: int, events: seq<Event>, next: Event | DropsAfter(upgrade, opt, clock, events, next, late) ::
      var h := Observed(upgrade, Start(opt), NOTHING, events);
      h.pinged.Some? && next.now - h.pinged.value >= wait
  }

  /** The pending timer was armed no sooner than the ping; without an interval and without delay time stands still. */
  predicate ArmedAfterPing(s: Sys, h: History, clock: int, late: nat) {
    var sess := Session(s);
    sess.state == Active ==>
      && sess.timer.Some? && sess.timer.value <= clock
      && (h.pinged.Some? ==> h.pinged.value <= sess.timer.value)
      && (sess.opt.heartbeatInterval + late == 0 ==> sess.timer.value <= s.beat.lastActivity)
  }

  lemma ArriveKeepsArmed(upgrade: UpgradeCheck, s: Sys, h: History, clock: int, e: Event, late: nat)
    requires ArmedAfterPing(s, h, clock, late) && Timely(s, clock, e, late) && Enabled(s, e.action) && e.action.Arrives?
    ensures ArmedAfterPing(Apply(upgrade, s, e), Observe(upgrade, s, h, e), e.now, late)
  {
    hide Arrive;
    ArriveTimer(upgrade, s.conn, e.action.chunk, e.action.replyOk, e.now);
    ArriveEvolves(upgrade, s.conn, e.action.chunk, e.action.replyOk, e.now);
  }

  lemma StepKeepsArmed(upgrade: UpgradeCheck, s: Sys, h: History, clock: int, e: Event, late: nat)
    requires ArmedAfterPing(s, h, clock, late) && Timely(s, clock, e, late) && Enabled(s, e.action)
    ensures ArmedAfterPing(Apply(upgrade, s, e), Observe(upgrade, s, h, e), e.now, late)
  {
    hide Arrive, CloseItem, PingItem;
    if e.action.Arrives? {
      ArriveKeepsArmed(upgrade, s, h, clock, e, late);
    }
  }

  lemma {:induction false} RunKeepsArmed(upgrade: UpgradeCheck, s: Sys, h: History, clock: int, events: seq<Event>, late: nat)
    requires Possible(upgrade, s, events) && TimelyRun(upgrade, s, clock, events, late)
    requires ArmedAfterPing(s, h, clock, late)
    ensures ArmedAfterPing(Execute(upgrade, s, events), Observed(upgrade, s, h, events), Clock(clock, events), late)
    decreases |events|
  {
    hide ArmedAfterPing, Timely, Apply, Enabled, Observe;
    if events != [] {
      var e := events[0];
      StepKeepsArmed(upgrade, s, h, clock, e, late);
      RunKeepsArmed(upgrade, Apply(upgrade, s, e), Observe(upgrade, s, h, e), e.now, events[1..], late);
      assert Clock(e.now, events[1..]) == Clock(clock, events);
    }
  }

  /** A dropped peer has had an interval to answer; and no time at all passes without an interval and without delay. */
  lemma DroppedAfterInterval(upgrade: UpgradeCheck, opt: Options, clock: int, events: seq<Event>, next: Event, late: nat)
    requires DropsAfter(upgrade, opt, clock, events, next, late)
    ensures var h := Observed(upgrade, Start(opt), NOTHING, events);
            h.pinged.Some? && next.now - h.pinged.value >= opt.heartbeatInterval
    ensures opt.heartbeatInterval + late == 0 ==> opt.heartbeatTimeout == 0
  {
    hide Possible, Execute, Observed, Arrive, PingItem, TimelyRun;
    RunKeepsArmed(upgrade, Start(opt), NOTHING, clock, events, late);
    RunRecalled(upgrade, Start(opt), NOTHING, events);
    RunKeepsOptions(upgrade, Start(opt), events);
  }

  /** A run that begins with e. */
  lemma OneEvent(upgrade: UpgradeCheck, s: Sys, h: History, clock: int, e: Event, rest: seq<Event>, late: nat)
    requires Enabled(s, e.action) && Possible(upgrade, Apply(upgrade, s, e), rest)
    ensures Possible(upgrade, s, [e] + rest)
    ensures Execute(upgrade, s, [e] + rest) == Execute(upgrade, Apply(upgrade, s, e), rest)
    ensures Observed(upgrade, s, h, [e] + rest) == Observed(upgrade, Apply(upgrade, s, e), Observe(upgrade, s, h, e), rest)
    ensures Clock(clock, [e] + rest) == Clock(e.now, rest)
    ensures TimelyRun(upgrade, s, clock, [e] + rest, late)
            <==> Timely(s, clock, e, late) && TimelyRun(upgrade, Apply(upgrade, s, e), e.now, rest, late)
  {
    hide Apply, Enabled, Observe, Timely;
    assert ([e] + rest)[1..] == rest;
  }

  function AfterHandshake(opt: Options): Sys {
    var s := Start(opt);
    WithSession(s, Opened(Session(s), 0)).(beat := Beat(0, false, 0))
  }

  /** Nothing has been heard since the handshake; the ping is out, and the timer was armed at the given time. */
  function AfterPing(opt: Options, armed: int): Sys {
    var s := AfterHandshake(opt);
    WithSession(s, Session(s).(timer := Some(armed), posted := [PingItem()])).(beat := Beat(0, true, 1))
  }

  const BLANK_LINE: seq<byte> := [13, 10, 13, 10]

  /** The text of a request that the session accepts. */
  predicate Acceptable(upgrade: UpgradeCheck, opt: Options, text: seq<byte>) {
    && upgrade(text) && FirstEnd(text + BLANK_LINE, 0) == Some(|text|) && |text| + 4 <= opt.maxHandshakeBytes
  }

  lemma HandshakeStep(upgrade: UpgradeCheck, opt: Options, text: seq<byte>)
    requires Acceptable(upgrade, opt, text)
    ensures Enabled(Start(opt), Arrives(text + BLANK_LINE, true))
    ensures Apply(upgrade, Start(opt), Event(0, Arrives(text + BLANK_LINE, true))) == AfterHandshake(opt)
  {
    hide FirstEnd, DoClose, ProcessFrameBuffer, Opened;
    var c, chunk := Start(opt).conn, text + BLANK_LINE;
    assert Handshake(upgrade, c, chunk, true, 0) == Conn([], Receiver(Opened(c.rcv.sess, 0), [], true)) by {
      assert c.handshake + chunk == chunk;
      assert chunk[..|text|] == text && c.rcv.buf + chunk[|text| + 4..] == [];
    }
    OpenedSession(c.rcv.sess);
  }

  lemma OpenedSession(s: Sess)
    ensures Opened(s, 0).state == Active && Opened(s, 0).refreshes == s.refreshes + 1
  {
  }

  /** While there is time left, a firing of the timer arms it again. */
  lemma WaitTick(upgrade: UpgradeCheck, opt: Options, ping: int, armed: int, now: int)
    requires now < opt.heartbeatTimeout
    ensures var s, h, e := AfterPing(opt, armed), History([0], Some(ping)), Event(now, TimerFires);
            && Enabled(s, e.action) && Apply(upgrade, s, e) == AfterPing(opt, now) && Observe(upgrade, s, h, e) == h
  {
    hide PingItem;
  }

  /** When there is none left, it drops the connection. */
  lemma WaitEnds(upgrade: UpgradeCheck, opt: Options, armed: int, now: int)
    requires now >= opt.heartbeatTimeout
    ensures var s, e := AfterPing(opt, armed), Event(now, TimerFires);
            Enabled(s, e.action) && Session(Apply(upgrade, s, e)).closes != Session(s).closes
  {
    hide PingItem;
  }

  lemma TimelyTick(opt: Options, armed: int, now: int, late: nat)
    requires armed + opt.heartbeatInterval <= now <= armed + opt.heartbeatInterval + late
    ensures Timely(AfterPing(opt, armed), armed, Event(now, TimerFires), late)
  {
    hide PingItem;
  }

  /**
   * The peer stays silent after the ping.  The timer fires again and again, at its expiry if there is an interval, and
   * a unit of time apart otherwise; the firing that drops the connection comes less than the timeout after the ping.
   */
  lemma {:induction false} WaitRunsOut(upgrade: UpgradeCheck, opt: Options, ping: int, armed: int, late: nat)
      returns (events: seq<Event>, next: Event)
    requires ping == Max(opt.heartbeatInterval, 1) && opt.heartbeatInterval + late > 0
    requires armed >= ping && armed + opt.heartbeatInterval < opt.heartbeatTimeout + ping
    ensures var s := AfterPing(opt, armed);
            && Possible(upgrade, s, events) && TimelyRun(upgrade, s, armed, events, late)
            && Observed(upgrade, s, History([0], Some(ping)), events) == History([0], Some(ping))
            && var s' := Execute(upgrade, s, events);
               && next.action.TimerFires? && Enabled(s', next.action) && Timely(s', Clock(armed, events), next, late)
               && Session(Apply(upgrade, s', next)).closes != Session(s').closes
    ensures next.now - ping < opt.heartbeatTimeout
    decreases opt.heartbeatTimeout + ping - armed
  {
    hide AfterPing, Apply, Enabled, Timely, Observe;
    var s, h := AfterPing(opt, armed), History([0], Some(ping));
    if armed + ping >= opt.heartbeatTimeout {
      events, next := [], Event(Max(armed + opt.heartbeatInterval, opt.heartbeatTimeout), TimerFires);
      WaitEnds(upgrade, opt, armed, next.now);
      TimelyTick(opt, armed, next.now, late);
    } else {
      var e := Event(armed + ping, TimerFires);
      WaitTick(upgrade, opt, ping, armed, armed + ping);
      TimelyTick(opt, armed, armed + ping, late);
      events, next := WaitRunsOut(upgrade, opt, ping, armed + ping, late);
      OneEvent(upgrade, s, h, armed, e, events, late);
      events := [e] + events;
    }
  }

  /** A peer that is silent after the handshake is pinged, and dropped less than the timeout after that. */
  lemma SilentPeerIsDroppedEarly(upgrade: UpgradeCheck, opt: Options, text: seq<byte>, late: nat)
      returns (events: seq<Event>, next: Event)
    requires Acceptable(upgrade, opt, text)
    requires opt.heartbeatInterval < opt.heartbeatTimeout && opt.heartbeatInterval + late > 0
    ensures DropsAfter(upgrade, opt, 0, events, next, late)
    ensures var h := Observed(upgrade, Start(opt), NOTHING, events);
            h.pinged.Some? && next.now - h.pinged.value < opt.heartbeatTimeout
  {
    hide PingItem, Arrive, Possible, Execute, Observed, TimelyRun, Acceptable;
    var ping, s := Max(opt.heartbeatInterval, 1), AfterHandshake(opt);
    var e0, e1 := Event(0, Arrives(text + BLANK_LINE, true)), Event(ping, TimerFires);
    events, next := WaitRunsOut(upgrade, opt, ping, ping, late);
    HandshakeStep(upgrade, opt, text);
    assert Apply(upgrade, s, e1) == AfterPing(opt, ping);
    assert NOTHING.heard + [0] == [0];
    OneEvent(upgrade, s, History([0], None), 0, e1, events, late);
    OneEvent(upgrade, Start(opt), NOTHING, 0, e0, [e1] + events, late);
    events := [e0] + ([e1] + events);
  }

  /**
   * The documented rule, that a pinged peer has the timeout to answer, holds in every run if and only if the timeout is
   * no longer than the interval; what holds for all options is that it has an interval.  (With neither an interval nor
   * delay of the timer no time passes at all, and nobody is dropped unless the timeout is zero.)
   */
  lemma PingIsWaitedForIff(upgrade: UpgradeCheck, opt: Options, text: seq<byte>, late: nat)
    requires Acceptable(upgrade, opt, text)
    ensures PingIsWaitedFor(upgrade, opt, late, opt.heartbeatInterval)
    ensures PingIsWaitedFor(upgrade, opt, late, opt.heartbeatTimeout)
            <==> opt.heartbeatTimeout <= opt.heartbeatInterval || opt.heartbeatInterval + late == 0
  {
    hide Possible, Execute, TimelyRun, Apply, Enabled, Timely, Observed, Acceptable;
    forall clock: int, events: seq<Event>, next: Event | DropsAfter(upgrade, opt, clock, events, next, late)
      ensures var h := Observed(upgrade, Start(opt), NOTHING, events);
              h.pinged.Some? && next.now - h.pinged.value >= opt.heartbeatInterval
      ensures opt.heartbeatInterval + late == 0 ==> opt.heartbeatTimeout == 0
    {
      DroppedAfterInterval(upgrade, opt, clock, events, next, late);
    }
    if opt.heartbeatTimeout > opt.heartbeatInterval && opt.heartbeatInterval + late > 0 {
      var events, next := SilentPeerIsDroppedEarly(upgrade, opt, text, late);
    }
  }

  function PingCount(s: Sys): int {
    s.beat.pings - if s.beat.awaitingPong then 1 else 0
  }

  lemma StepPings(upgrade: UpgradeCheck, s: Sys, e: Event)
    requires Enabled(s, e.action)
    ensures var s' := Apply(upgrade, s, e);
            Session(s').refreshes == Session(s).refreshes ==>
              s'.beat.lastActivity == s.beat.lastActivity && PingCount(s') == PingCount(s)
  {
    hide Arrive, DoClose, WsReceive.Close;
    if e.action.Arrives? {
      ArriveEvolves(upgrade, s.conn, e.action.chunk, e.action.replyOk, e.now);
    }
  }

  /** At most one automatic ping per silent period, and none once a ping is waiting for its answer. */
  lemma {:induction false} OnePingPerSilence(upgrade: UpgradeCheck, s: Sys, events: seq<Event>)
    requires Possible(upgrade, s, events)
    ensures var s' := Execute(upgrade, s, events);
            && Session(s).refreshes <= Session(s').refreshes
            && (Session(s').refreshes == Session(s).refreshes ==>
                  && s'.beat.lastActivity == s.beat.lastActivity
                  && PingCount(s') == PingCount(s)
                  && s'.beat.pings <= s.beat.pings + (if s.beat.awaitingPong then 0 else 1))
    decreases |events|
  {
    hide Apply, Enabled;
    if events != [] {
      StepEvolves(upgrade, s, events[0]);
      StepPings(upgrade, s, events[0]);
      OnePingPerSilence(upgrade, Apply(upgrade, s, events[0]), events[1..]);
    }
  }
}
