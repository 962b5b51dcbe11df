/** The registration lifecycle (`core/serverRegister.py`).

    A `Registration` is a record: the fixed listing configuration, the last
    A2S record seen, the lease the backend granted (id, key, deadline) and
    the state of the two background loops. Each of `__enter__`,
    `__exit__`, `__del__`, `__doHeartBeat` and `__doUpdate` is one atomic
    step on that record, as the source runs them under its mutex; a step
    also returns the requests it sent and started or stopped loops, in
    order, and the exception it raised. Threads, locks and the clock are
    not modelled: the clock reading and "a stop was requested" are inputs
    of the heartbeat loop's turn. */
module ServerRegister {
  import opened Wrappers
  import A2s
  import opened ServerBrowser

  /** `MAX_RETRIES`: failed A2S queries one update step tolerates. */
  const MaxRetries := 10

  /** The constructor arguments that stay fixed. */
  datatype Config = Config(address: string, localIp: string, gamePort: int, pingPort: int, queryPort: int,
                           name: string, description: string, mods: Json, passwordProtected: bool)

  /** A loop's thread attribute: `None`, a live thread, or a thread that
      has ended without being reset. */
  datatype Thread = NoThread | Alive | Dead

  /** What the backend granted: `unique_id`, the key and `refreshBy`.
      `refreshBy` is `None` only after the as-written heartbeat step. */
  datatype Lease = Lease(id: string, key: string, refreshBy: Option<real>)

  datatype Registration = Registration(config: Config, a2sInfo: A2s.Info, lease: Option<Lease>,
                                       heartbeat: Thread, update: Thread)

  datatype LoopKind = HeartbeatLoop | UpdateLoop

  /** What a step does outside the record, in order. */
  datatype Event = Sent(request: Request) | Started(loop: LoopKind) | Stopped(loop: LoopKind)

  /** The record after a step, what it did, and what it raised. */
  datatype Step = Step(state: Registration, events: seq<Event>, raised: Option<Failure>)

  /** `__init__`: the default A2S record, no lease, no loop. */
  function Create(c: Config): Registration {
    Registration(c, A2s.DefaultInfo(), None, NoThread, NoThread)
  }

  /** The listing `registerServer` is called with: the fixed configuration
      and the map and counts of the stored A2S record. */
  function ListingOf(c: Config, info: A2s.Info): Listing {
    Listing(c.gamePort, c.pingPort, c.queryPort, c.name, c.description, c.passwordProtected,
            info.mapName, info.playerCount, info.maxPlayers, c.localIp, c.mods)
  }

  function LeaseOf(g: Registered): Lease {
    Lease(g.id, g.key, Some(g.refreshBy))
  }

  /** Every lease holds a deadline: what the heartbeat loop needs to compute
      its wait. */
  predicate Leased(r: Registration) {
    r.lease.Some? ==> r.lease.value.refreshBy.Some?
  }

  /** A loop runs only once the server is registered. */
  predicate Valid(r: Registration) {
    (r.heartbeat != NoThread || r.update != NoThread) ==> r.lease.Some?
  }

  // ---------------------------------------------------------------------
  // Entering and leaving
  // ---------------------------------------------------------------------

  /** `__enter__`: register once with the current A2S record; on success
      store id, key and deadline, then start the heartbeat loop and then
      the update loop. A failed registration propagates and changes
      nothing. */
  function Enter(r: Registration, reply: Attempt, parse: string -> Option<real>): (s: Step)
    ensures |s.events| >= 1 && s.events[0] == Sent(RegisterRequest(r.config.address, ListingOf(r.config, r.a2sInfo)))
    ensures s.raised.None? <==> RegisterReply(reply, parse).Ok?
    ensures s.raised.Some? ==> s.state == r && |s.events| == 1
    ensures s.raised.Some? ==> s.raised == Some(RegisterReply(reply, parse).error)
    ensures s.raised.None? ==> Valid(s.state) && Leased(s.state)
    ensures s.raised.None? ==>
              var g := RegisterReply(reply, parse).value;
              && s.state.lease == Some(Lease(g.id, g.key, Some(g.refreshBy)))
              && s.state.heartbeat == Alive && s.state.update == Alive
              && s.state.config == r.config && s.state.a2sInfo == r.a2sInfo
              && s.events == [s.events[0], Started(HeartbeatLoop), Started(UpdateLoop)]
  {
    var sent := Sent(RegisterRequest(r.config.address, ListingOf(r.config, r.a2sInfo)));
    match RegisterReply(reply, parse)
    case Err(f) => Step(r, [sent], Some(f))
    case Ok(g) =>
      Step(r.(lease := Some(LeaseOf(g)), heartbeat := Alive, update := Alive),
           [sent, Started(HeartbeatLoop), Started(UpdateLoop)], None)
  }

  /** `__stopHeartbeat` / `__stopUpdating`: only a live thread is stopped
      (and reset to `None`); otherwise nothing happens. */
  function StopLoop(t: Thread): (u: Thread)
    ensures u != Alive
    ensures t != Alive ==> u == t
  {
    if t == Alive then NoThread else t
  }

  /** The event a stop produces: one `Stopped` for a live loop, else none. */
  function StopEvents(t: Thread, k: LoopKind): (e: seq<Event>)
    ensures |e| <= 1
    ensures |e| == 1 <==> t == Alive
  {
    if t == Alive then [Stopped(k)] else []
  }

  /** Stopping is idempotent: a second stop finds nothing to do. */
  lemma StopTwice(t: Thread, k: LoopKind)
    ensures StopLoop(StopLoop(t)) == StopLoop(t)
    ensures StopEvents(StopLoop(t), k) == []
  {
  }

  /** Both loops stopped, heartbeat first. */
  function StopBoth(r: Registration): (s: Step)
    ensures s.state.heartbeat != Alive && s.state.update != Alive
    ensures s.state.config == r.config && s.state.a2sInfo == r.a2sInfo && s.state.lease == r.lease
    ensures forall i :: 0 <= i < |s.events| ==> s.events[i].Stopped?
    ensures s.raised.None?
  {
    Step(r.(heartbeat := StopLoop(r.heartbeat), update := StopLoop(r.update)),
         StopEvents(r.heartbeat, HeartbeatLoop) + StopEvents(r.update, UpdateLoop), None)
  }

  /** `__exit__`: stop both loops, then delete the registration once with
      the stored id and key; an exception from the delete propagates. */
  function Exit(r: Registration, reply: Attempt): (s: Step)
    requires r.lease.Some?
    ensures s.state == StopBoth(r).state
    ensures |s.events| >= 1
    ensures s.events[|s.events| - 1] == Sent(DeleteRequest(r.config.address, r.lease.value.id, r.lease.value.key))
    ensures forall i :: 0 <= i < |s.events| - 1 ==> s.events[i].Stopped?
    ensures s.raised.None? <==> reply.Delivered? && IsOk(reply.response)
  {
    var stop := StopBoth(r);
    var l := r.lease.value;
    var sent := stop.events + [Sent(DeleteRequest(r.config.address, l.id, l.key))];
    match Acknowledge(reply)
    case Ok(_) => Step(stop.state, sent, None)
    case Err(f) => Step(stop.state, sent, Some(f))
  }

  /** `__del__`: stop both loops; never a request. */
  function Del(r: Registration): (s: Step)
    ensures s == StopBoth(r)
  {
    StopBoth(r)
  }

  /** The finaliser never deletes, and running it twice is harmless. */
  lemma DelNeverSends(r: Registration)
    ensures forall i :: 0 <= i < |Del(r).events| ==> !Del(r).events[i].Sent?
    ensures Del(Del(r).state) == Step(Del(r).state, [], None)
  {
  }

  /** The whole lifecycle of a `with` block: register, start heartbeat then
      update, stop heartbeat then update, and delete exactly the lease the
      backend granted. */
  lemma EnterExitTrace(r: Registration, reply: Attempt, del: Attempt, parse: string -> Option<real>)
    requires RegisterReply(reply, parse).Ok?
    ensures var g := RegisterReply(reply, parse).value;
            var e := Enter(r, reply, parse);
            var x := Exit(e.state, del);
            && e.events + x.events
               == [Sent(RegisterRequest(r.config.address, ListingOf(r.config, r.a2sInfo))),
                   Started(HeartbeatLoop), Started(UpdateLoop), Stopped(HeartbeatLoop), Stopped(UpdateLoop),
                   Sent(DeleteRequest(r.config.address, g.id, g.key))]
            && x.state.heartbeat == NoThread && x.state.update == NoThread
            && x.state.lease == Some(LeaseOf(g))
  {
  }

  // ---------------------------------------------------------------------
  // The heartbeat step
  // ---------------------------------------------------------------------

  /** `n` copies of one event. */
  function Repeat(e: Event, n: nat): (s: seq<Event>)
    ensures |s| == n && forall i :: 0 <= i < n ==> s[i] == e
  {
    seq(n, _ => e)
  }

  /** The deadline stored after a heartbeat that returned `returned`. As
      written the return value is stored as is, `None` included; the
      corrected step keeps the previous deadline when there is none. */
  function NextDeadline(returned: Option<real>, previous: Option<real>, corrected: bool): (d: Option<real>)
    ensures returned.Some? ==> d == returned
    ensures corrected && returned.None? ==> d == previous
    ensures !corrected ==> d == returned
  {
    if corrected && returned.None? then previous else returned
  }

  /** `__doHeartBeat`, as written (`corrected == false`) or with the
      previous deadline kept when `heartbeat` returns `None`. `outs` are
      the outcomes of the heartbeat's sends, `reply` that of the
      re-registration. */
  function HeartBeatWith(r: Registration, outs: seq<Attempt>, reply: Attempt,
                         parse: string -> Option<real>, corrected: bool): (s: Step)
    requires |outs| == MaxAttempts && Valid(r)
  {
    if r.heartbeat == NoThread then Step(r, [], None)
    else
      var l := r.lease.value;
      var b := Heartbeat(outs, parse);
      var beats := Repeat(Sent(HeartbeatRequest(r.config.address, l.id, l.key)), b.sent);
      match b.deadline
      case Ok(t) => Step(r.(lease := Some(l.(refreshBy := NextDeadline(t, l.refreshBy, corrected)))), beats, None)
      case Err(f) =>
        if f.Refused? && f.error.code == 404 then
          var again := beats + [Sent(RegisterRequest(r.config.address, ListingOf(r.config, r.a2sInfo)))];
          match RegisterReply(reply, parse)
          case Ok(g) => Step(r.(lease := Some(LeaseOf(g))), again, None)
          case Err(f2) => Step(r, again, Some(f2))
        else Step(r, beats, Some(f))
  }

  /** `__doHeartBeat` exactly as written. */
  function DoHeartBeatAsWritten(r: Registration, outs: seq<Attempt>, reply: Attempt,
                                parse: string -> Option<real>): (s: Step)
    requires |outs| == MaxAttempts && Valid(r)
    ensures Valid(s.state)
  {
    HeartBeatWith(r, outs, reply, parse, false)
  }

  /** `__doHeartBeat` keeping the previous deadline when `heartbeat`
      returns `None`. */
  function DoHeartBeat(r: Registration, outs: seq<Attempt>, reply: Attempt,
                       parse: string -> Option<real>): (s: Step)
    requires |outs| == MaxAttempts && Valid(r)
    ensures Valid(s.state)
    ensures Leased(r) ==> Leased(s.state)
  {
    HeartBeatWith(r, outs, reply, parse, true)
  }

  /** Without a heartbeat thread the step does nothing. */
  lemma HeartBeatWithoutThread(r: Registration, outs: seq<Attempt>, reply: Attempt,
                               parse: string -> Option<real>, corrected: bool)
    requires |outs| == MaxAttempts && Valid(r) && r.heartbeat == NoThread
    ensures HeartBeatWith(r, outs, reply, parse, corrected) == Step(r, [], None)
  {
  }

  /** A heartbeat that returns a deadline replaces only `refreshBy`, after
      as many heartbeat posts as it made. */
  lemma HeartBeatReplacesOnlyDeadline(r: Registration, outs: seq<Attempt>, reply: Attempt,
                                      parse: string -> Option<real>, corrected: bool, t: real)
    requires |outs| == MaxAttempts && Valid(r) && r.heartbeat != NoThread
    requires Heartbeat(outs, parse).deadline == Ok(Some(t))
    ensures var s := HeartBeatWith(r, outs, reply, parse, corrected);
            var l := r.lease.value;
            && s.state == r.(lease := Some(Lease(l.id, l.key, Some(t))))
            && s.raised.None?
            && s.events == Repeat(Sent(HeartbeatRequest(r.config.address, l.id, l.key)), Heartbeat(outs, parse).sent)
  {
  }

  /** A 404 from the heartbeat re-registers once, with the current A2S
      record, and replaces id, key and deadline together; if that fails,
      the failure propagates and the record is unchanged. */
  lemma HeartBeat404Reregisters(r: Registration, outs: seq<Attempt>, reply: Attempt,
                                parse: string -> Option<real>, corrected: bool, e: ResponseError)
    requires |outs| == MaxAttempts && Valid(r) && r.heartbeat != NoThread
    requires Heartbeat(outs, parse).deadline == Err(Refused(e)) && e.code == 404
    ensures var s := HeartBeatWith(r, outs, reply, parse, corrected);
            && |s.events| == Heartbeat(outs, parse).sent + 1
            && s.events[|s.events| - 1] == Sent(RegisterRequest(r.config.address, ListingOf(r.config, r.a2sInfo)))
            && (RegisterReply(reply, parse).Ok? ==>
                  s.state == r.(lease := Some(LeaseOf(RegisterReply(reply, parse).value))) && s.raised.None?)
            && (RegisterReply(reply, parse).Err? ==>
                  s.state == r && s.raised == Some(RegisterReply(reply, parse).error))
  {
  }

  /** Any other exception from the heartbeat propagates with the record
      unchanged. */
  lemma HeartBeatOtherFailure(r: Registration, outs: seq<Attempt>, reply: Attempt,
                              parse: string -> Option<real>, corrected: bool, f: Failure)
    requires |outs| == MaxAttempts && Valid(r) && r.heartbeat != NoThread
    requires Heartbeat(outs, parse).deadline == Err(f) && !(f.Refused? && f.error.code == 404)
    ensures var s := HeartBeatWith(r, outs, reply, parse, corrected);
            s.state == r && s.raised == Some(f)
  {
  }

  // ---------------------------------------------------------------------
  // The heartbeat loop's turn
  // ---------------------------------------------------------------------

  /** The wait before the next heartbeat: 80% of the time left. */
  function WaitTimeout(refreshBy: real, now: real): (w: real)
    ensures now < refreshBy ==> 0.0 < w < refreshBy - now
    ensures now >= refreshBy ==> w <= 0.0
  {
    0.8 * (refreshBy - now)
  }

  /** What one turn of `__heartBeatThreadTarget` does: send a heartbeat,
      end the loop, block until a stop arrives, or fail (the exception is
      logged and the loop sleeps and turns again). */
  datatype Turn = Beats | Ends | BlocksUntilStop | Fails

  /** `acquire(timeout)` on the stop condition: a negative timeout other
      than -1 raises `ValueError`; -1 waits without bound; otherwise the
      acquire succeeds exactly when a stop was requested. */
  function AcquireStop(timeout: real, stopRequested: bool): Turn {
    if timeout < 0.0 && timeout != -1.0 then Fails
    else if stopRequested then Ends
    else if timeout == -1.0 then BlocksUntilStop
    else Beats
  }

  /** One turn as written: `None - time.time()` raises `TypeError`; else
      the acquire with the computed timeout. */
  function HeartbeatTurn(refreshBy: Option<real>, now: real, stopRequested: bool): Turn {
    match refreshBy
    case None => Fails
    case Some(t) => AcquireStop(WaitTimeout(t, now), stopRequested)
  }

  /** One turn with the timeout clamped at zero. */
  function HeartbeatTurnClamped(refreshBy: Option<real>, now: real, stopRequested: bool): Turn {
    match refreshBy
    case None => Fails
    case Some(t) =>
      var w := WaitTimeout(t, now);
      AcquireStop(if w < 0.0 then 0.0 else w, stopRequested)
  }

  /** As written, once the deadline has passed (by more than the one
      instant where the timeout is exactly -1) every turn fails: no
      heartbeat is sent and a stop request is never observed. */
  lemma LateTurnIgnoresStop(t: real, now: real, stopRequested: bool)
    requires now > t && now != t + 1.25
    ensures HeartbeatTurn(Some(t), now, stopRequested) == Fails
  {
  }

  /** With the timeout clamped, every turn of a leased registration either
      beats or, when a stop was requested, ends. */
  lemma ClampedTurnObservesStop(r: Registration, now: real, stopRequested: bool)
    requires Leased(r) && r.lease.Some?
    ensures HeartbeatTurnClamped(r.lease.value.refreshBy, now, stopRequested)
            == (if stopRequested then Ends else Beats)
  {
  }

  /** As written, ten swallowed non-404 refusals leave the deadline `None`;
      from then on every turn fails, with or without a stop request, so
      the loop never ends and `__exit__` waits for it forever. */
  lemma HeartbeatNoneLivelock(r: Registration, reply: Attempt, parse: string -> Option<real>, now: real, stop: bool)
    requires Valid(r) && r.heartbeat != NoThread
    ensures var outs := seq(MaxAttempts, _ => Delivered(Response(409, Some(JObj(map[])))));
            var s := DoHeartBeatAsWritten(r, outs, reply, parse);
            && s.raised.None?
            && s.state.lease.Some? && s.state.lease.value.refreshBy.None?
            && !Leased(s.state)
            && HeartbeatTurn(s.state.lease.value.refreshBy, now, stop) == Fails
  {
    var outs := seq(MaxAttempts, _ => Delivered(Response(409, Some(JObj(map[])))));
    assert RetriedBefore(outs, MaxAttempts, parse) by {
      forall j | 0 <= j < MaxAttempts ensures Retried(BeatOutcome(outs[j], parse), j) {
        assert outs[j] == Delivered(Response(409, Some(JObj(map[]))));
      }
    }
    HeartbeatReturnsNone(outs, parse);
  }

  /** With the corrected step, a registration entered successfully keeps a
      deadline through any number of heartbeat steps, so its loop always
      observes a stop request on the next turn. */
  lemma CorrectedHeartbeatObservesStop(r: Registration, steps: seq<seq<Attempt>>,
                                       replies: seq<Attempt>, parse: string -> Option<real>, now: real)
    requires Valid(r) && Leased(r) && r.lease.Some?
    requires |replies| == |steps| && forall i :: 0 <= i < |steps| ==> |steps[i]| == MaxAttempts
    ensures var s := HeartBeats(r, steps, replies, parse);
            && Valid(s) && Leased(s) && s.lease.Some?
            && HeartbeatTurnClamped(s.lease.value.refreshBy, now, true) == Ends
  {
    HeartBeatsLeased(r, steps, replies, parse);
    var s := HeartBeats(r, steps, replies, parse);
    ClampedTurnObservesStop(s, now, true);
  }

  /** A run of corrected heartbeat steps. */
  function HeartBeats(r: Registration, steps: seq<seq<Attempt>>, replies: seq<Attempt>,
                      parse: string -> Option<real>): (s: Registration)
    requires Valid(r)
    requires |replies| == |steps| && forall i :: 0 <= i < |steps| ==> |steps[i]| == MaxAttempts
    ensures Valid(s)
    ensures r.lease.Some? ==> s.lease.Some?
    decreases |steps|
  {
    if |steps| == 0 then r
    else HeartBeats(DoHeartBeat(r, steps[0], replies[0], parse).state, steps[1..], replies[1..], parse)
  }

  /** Corrected heartbeat steps keep every lease's deadline. */
  lemma {:induction false} HeartBeatsLeased(r: Registration, steps: seq<seq<Attempt>>, replies: seq<Attempt>,
                                            parse: string -> Option<real>)
    requires Valid(r) && Leased(r)
    requires |replies| == |steps| && forall i :: 0 <= i < |steps| ==> |steps[i]| == MaxAttempts
    ensures Leased(HeartBeats(r, steps, replies, parse))
    decreases |steps|
  {
    if |steps| > 0 {
      var next := DoHeartBeat(r, steps[0], replies[0], parse).state;
      HeartBeatsLeased(next, steps[1..], replies[1..], parse);
    }
  }

  // ---------------------------------------------------------------------
  // The update step
  // ---------------------------------------------------------------------

  /** Failed queries (`None`) among A2S query outcomes. */
  function Failures(qs: seq<Option<A2s.Info>>): (n: nat)
    ensures n <= |qs|
  {
    if |qs| == 0 then 0 else Failures(qs[..|qs| - 1]) + (if qs[|qs| - 1].None? then 1 else 0)
  }

  /** No query outcome in `qs` differs from `stored`. */
  ghost predicate NoChange(qs: seq<Option<A2s.Info>>, stored: A2s.Info) {
    forall j :: 0 <= j < |qs| ==> qs[j].None? || qs[j].value == stored
  }

  /** How an update step ended: a change was found and pushed, the retry
      budget ran out, or the given query outcomes ran out first. */
  datatype UpdateEnd = Changed | GaveUp | Pending

  /** `__doUpdate`. `queries` are the outcomes of successive `getInfo`
      calls (`None` for one that raised), `push` that of the update post.
      Only failures count against the budget; a record equal to the stored
      one is queried again. The first differing record is stored, then
      pushed; the push's outcome is only reported, never undone. */
  method DoUpdate(r: Registration, queries: seq<Option<A2s.Info>>, push: Attempt)
    returns (s: Registration, used: nat, end: UpdateEnd, events: seq<Event>, pushed: Option<Result<(), Failure>>)
    requires r.lease.Some?
    ensures used <= |queries|
    ensures end == Changed ==>
              && 0 < used && queries[used - 1].Some? && queries[used - 1].value != r.a2sInfo
              && NoChange(queries[..used - 1], r.a2sInfo) && Failures(queries[..used - 1]) < MaxRetries
              && s == r.(a2sInfo := queries[used - 1].value)
              && events == [Sent(UpdateRequest(r.config.address, r.lease.value.id, r.lease.value.key,
                                               s.a2sInfo.playerCount, s.a2sInfo.maxPlayers, s.a2sInfo.mapName))]
              && pushed == Some(Acknowledge(push))
    ensures end == GaveUp ==>
              && 0 < used && queries[used - 1].None?
              && NoChange(queries[..used], r.a2sInfo) && Failures(queries[..used]) == MaxRetries
    ensures end == Pending ==>
              used == |queries| && NoChange(queries, r.a2sInfo) && Failures(queries) < MaxRetries
    ensures end != Changed ==> s == r && events == [] && pushed.None?
  {
    var tries := 0;
    used := 0;
    while tries < MaxRetries && used < |queries|
      invariant used <= |queries|
      invariant tries == Failures(queries[..used]) <= MaxRetries
      invariant NoChange(queries[..used], r.a2sInfo)
      invariant tries == MaxRetries ==> 0 < used && queries[used - 1].None?
      decreases |queries| - used
    {
      var q := queries[used];
      assert queries[..used + 1][..used] == queries[..used];
      match q {
        case None =>
          tries := tries + 1;
          used := used + 1;
        case Some(info) =>
          if info != r.a2sInfo {
            used := used + 1;
            assert queries[..used - 1] == queries[..used][..used - 1];
            s := r.(a2sInfo := info);
            events := [Sent(UpdateRequest(r.config.address, r.lease.value.id, r.lease.value.key,
                                          info.playerCount, info.maxPlayers, info.mapName))];
            end := Changed;
            pushed := Some(Acknowledge(push));
            return;
          }
          used := used + 1;
      }
    }
    if used == |queries| {
      assert queries[..used] == queries;
    }
    s, events, pushed := r, [], None;
    end := if tries == MaxRetries then GaveUp else Pending;
  }
}
