/** The build sidecar's shutdown: the signal, idle and stopper goroutines of
    `main`, the channel they share, and the build server they watch, as one
    transition system over every interleaving. */
module Shutdown {
  import Text

  /** Times are in nanoseconds. */
  const SECOND: nat := 1_000_000_000
  const POLL: nat := 5 * SECOND
  const GRACE: nat := 10 * SECOND
  const CAPACITY: nat := 2

  datatype Reason = BySignal | ByIdle

  datatype SignalAt = AwaitSignal | HasSignal | SignalSent

  /** `Loaded` has read the timestamp, `Counting` has then found it old enough,
      `Sending` has then also seen no build in flight. `Off` is `--idle-secs=0`. */
  datatype IdleAt =
    | Off
    | Polling(nextTick: nat)
    | Loaded(nextTick: nat, last: nat, readAt: nat)
    | Counting(nextTick: nat, last: nat, readAt: nat, lookedAt: nat)
    | Sending(last: nat, readAt: nat, lookedAt: nat, countedAt: nat)
    | IdleSent
    | Cancelled

  /** `Launched` has started the goroutine that stops gracefully, `Waiting` has
      then armed its timer. */
  datatype StopperAt =
    | Listening
    | Took(takenAt: nat)
    | Launched(takenAt: nat)
    | Waiting(takenAt: nat, armedAt: nat)
    | SawDone(takenAt: nat)
    | HardStopped(takenAt: nat, stoppedAt: nat)

  /** The goroutine that calls `GracefulStop`: not started, started, in the call,
      past it. */
  datatype Graceful = NotStarted | Started | Draining | Drained

  /** A build call: queued for a slot, holding one, registered and building, past
      its registration, past its slot. Its last act is to touch the timestamp. */
  datatype Phase = Queued | Holding | Building | Ending | Released

  datatype Build = Build(request: string, phase: Phase)

  datatype State = State(
    clock: nat,
    // server
    lastActivity: nat,
    builds: map<nat, Build>,
    inflight: map<string, nat>,
    slots: nat,
    // goroutines
    sigBuffered: bool,
    signal: SignalAt,
    idleWindow: nat,
    idle: IdleAt,
    stopper: StopperAt,
    graceful: Graceful,
    gracefulCalls: nat,
    exited: bool,
    // the stop channel, and everything ever sent on it
    channel: seq<Reason>,
    sent: seq<Reason>)

  datatype Action =
    | Elapse(dt: nat)
    | OtherCall
    | Start(id: nat, request: string)
    | Acquire(id: nat)
    | Abandon(id: nat)
    | Register(id: nat)
    | Finish(id: nat)
    | Release(id: nat)
    | Return(id: nat)
    | Interrupt
    | TakeSignal
    | SendSignal
    | IdleRead
    | IdleLook
    | IdleCount
    | IdleSend
    | TakeReason
    | Launch
    | CallGraceful
    | ArmTimer
    | DrainEnds
    | SeeDone
    | HardStop
    | Exit

  function Touched(s: State): State { s.(lastActivity := s.clock) }

  predicate InPhase(s: State, id: nat, phase: Phase)
  {
    id in s.builds && s.builds[id].phase == phase
  }

  function Move(s: State, id: nat, phase: Phase): State
    requires id in s.builds
  {
    s.(builds := s.builds[id := s.builds[id].(phase := phase)])
  }

  /** Calls that hold one of the server's slots. */
  predicate HoldsSlot(b: Build)
  {
    b.phase == Holding || b.phase == Building || b.phase == Ending
  }

  function SlotHolders(s: State): set<nat>
  {
    set id | id in s.builds && HoldsSlot(s.builds[id])
  }

  /** The server takes new calls until it is stopped, gracefully or not. */
  predicate Accepting(s: State)
  {
    (s.graceful == NotStarted || s.graceful == Started) && !s.stopper.HardStopped?
  }

  predicate Enabled(s: State, a: Action)
  {
    !s.exited &&
    match a
    case Elapse(_) => true
    case OtherCall => Accepting(s)
    case Start(id, _) => Accepting(s) && id !in s.builds
    case Acquire(id) => InPhase(s, id, Queued) && |SlotHolders(s)| < s.slots
    case Abandon(id) => InPhase(s, id, Queued)
    case Register(id) => InPhase(s, id, Holding)
    case Finish(id) => InPhase(s, id, Building)
    case Release(id) => InPhase(s, id, Ending)
    case Return(id) => InPhase(s, id, Released)
    case Interrupt => true
    case TakeSignal => s.signal == AwaitSignal && s.sigBuffered
    case SendSignal => s.signal == HasSignal && |s.channel| < CAPACITY
    case IdleRead => s.idle.Polling? && s.idle.nextTick <= s.clock
    case IdleLook => s.idle.Loaded?
    case IdleCount => s.idle.Counting?
    case IdleSend => s.idle.Sending? && |s.channel| < CAPACITY
    case TakeReason => s.stopper == Listening && s.channel != []
    case Launch => s.stopper.Took?
    case CallGraceful => s.graceful == Started
    case ArmTimer => s.stopper.Launched?
    case DrainEnds => s.graceful == Draining && (s.builds == map[] || s.stopper.HardStopped?)
    case SeeDone => s.stopper.Waiting? && s.graceful == Drained
    case HardStop => s.stopper.Waiting? && s.stopper.armedAt + GRACE <= s.clock
    case Exit => s.graceful == Drained || s.stopper.HardStopped?
  }

  function Do(s: State, a: Action): State
    requires Enabled(s, a)
  {
    match a
    case Elapse(dt) => s.(clock := s.clock + dt)
    case OtherCall => Touched(s)
    case Start(id, request) => Touched(s.(builds := s.builds[id := Build(request, Queued)]))
    case Acquire(id) => Move(s, id, Holding)
    case Abandon(id) => Move(s, id, Released)
    case Register(id) =>
      var request := s.builds[id].request;
      if request in s.inflight then Move(s, id, Ending)
      else Move(s, id, Building).(inflight := s.inflight[request := id])
    case Finish(id) => Move(s, id, Ending).(inflight := s.inflight - {s.builds[id].request})
    case Release(id) => Move(s, id, Released)
    case Return(id) => Touched(s.(builds := s.builds - {id}))
    case Interrupt => s.(sigBuffered := true)
    case TakeSignal => s.(sigBuffered := false, signal := HasSignal)
    case SendSignal => Sent(s, BySignal).(signal := SignalSent)
    case IdleRead =>
      var next := s.idle.nextTick + POLL;
      s.(idle := if s.lastActivity == 0 then Polling(next) else Loaded(next, s.lastActivity, s.clock))
    case IdleLook =>
      if s.clock - s.idle.last < s.idleWindow then s.(idle := Polling(s.idle.nextTick))
      else s.(idle := Counting(s.idle.nextTick, s.idle.last, s.idle.readAt, s.clock))
    case IdleCount =>
      if |s.inflight| > 0 then s.(idle := Polling(s.idle.nextTick))
      else s.(idle := Sending(s.idle.last, s.idle.readAt, s.idle.lookedAt, s.clock))
    case IdleSend => Sent(s, ByIdle).(idle := IdleSent)
    case TakeReason => s.(channel := s.channel[1..], stopper := Took(s.clock))
    case Launch => s.(stopper := Launched(s.stopper.takenAt), graceful := Started)
    case CallGraceful => s.(graceful := Draining, gracefulCalls := s.gracefulCalls + 1)
    case ArmTimer => s.(stopper := Waiting(s.stopper.takenAt, s.clock))
    case DrainEnds => s.(graceful := Drained)
    case SeeDone => s.(stopper := SawDone(s.stopper.takenAt))
    case HardStop => s.(stopper := HardStopped(s.stopper.takenAt, s.clock))
    case Exit => s.(exited := true, idle := if s.idle.Polling? then Cancelled else s.idle)
  }

  function Sent(s: State, reason: Reason): State
  {
    s.(channel := s.channel + [reason], sent := s.sent + [reason])
  }

  /** The daemon right after start-up; `window` is zero when idling is disabled. */
  predicate Initial(s: State)
  {
    && s.lastActivity <= s.clock
    && s.builds == map[] && s.inflight == map[] && s.slots >= 1
    && !s.sigBuffered && s.signal == AwaitSignal
    && s.idle == (if s.idleWindow == 0 then Off else Polling(s.clock + POLL))
    && s.stopper == Listening && s.graceful == NotStarted && s.gracefulCalls == 0 && !s.exited
    && s.channel == [] && s.sent == []
  }

  /** The actions can be taken one after the other. */
  predicate CanRun(s: State, run: seq<Action>)
    decreases |run|
  {
    run == [] || (Enabled(s, run[0]) && CanRun(Do(s, run[0]), run[1..]))
  }

  function After(s: State, run: seq<Action>): State
    requires CanRun(s, run)
    decreases |run|
  {
    if run == [] then s else After(Do(s, run[0]), run[1..])
  }

  // ------------------------------------------------------ what every run keeps

  /** Each sender sends once, the stopper takes once, nothing is lost. */
  ghost predicate ChannelOk(s: State)
  {
    && (BySignal in s.sent <==> s.signal == SignalSent)
    && (ByIdle in s.sent <==> s.idle == IdleSent)
    && |s.sent| == (if s.signal == SignalSent then 1 else 0) + (if s.idle == IdleSent then 1 else 0)
    && s.channel == (if s.stopper == Listening then s.sent else if s.sent == [] then [] else s.sent[1..])
    && (s.stopper != Listening ==> s.sent != [])
  }

  ghost predicate StopperOk(s: State)
  {
    && (s.graceful == NotStarted <==> s.stopper == Listening || s.stopper.Took?)
    && s.gracefulCalls == (if s.graceful == NotStarted || s.graceful == Started then 0 else 1)
    && (s.stopper.Took? || s.stopper.Launched? ==> s.stopper.takenAt <= s.clock)
    && (s.stopper.Waiting? ==> s.stopper.takenAt <= s.stopper.armedAt <= s.clock)
    && (s.stopper.SawDone? ==> s.graceful == Drained)
    && (s.stopper.HardStopped? ==> s.stopper.takenAt + GRACE <= s.stopper.stoppedAt <= s.clock)
  }

  /** The registry holds exactly the building calls, each under its own request. */
  ghost predicate RegistryOk(s: State)
  {
    && (forall request :: request in s.inflight ==>
          InPhase(s, s.inflight[request], Building) && s.builds[s.inflight[request]].request == request)
    && (forall id :: InPhase(s, id, Building) ==>
          s.builds[id].request in s.inflight && s.inflight[s.builds[id].request] == id)
  }

  ghost predicate SlotsOk(s: State)
  {
    |SlotHolders(s)| <= s.slots
  }

  /** Unless it was hard-stopped, a drained server has no call left. */
  ghost predicate DrainOk(s: State)
  {
    && (s.graceful == Drained && !s.stopper.HardStopped? ==> s.builds == map[])
    && (s.exited ==> s.graceful == Drained || s.stopper.HardStopped?)
  }

  ghost predicate ClockOk(s: State)
  {
    && s.lastActivity <= s.clock
    && (s.idle.Loaded? ==> 0 < s.idle.last <= s.lastActivity && s.idle.readAt <= s.clock)
    && (s.idle.Counting? ==> IdleFor(s, s.idle) && s.idle.lookedAt <= s.clock)
    && (s.idle.Sending? ==> IdleFor(s, s.idle) && s.idle.lookedAt <= s.idle.countedAt <= s.clock)
  }

  /** When the loop looked at the clock, a real timestamp, read before, was at least
      the idle window old. */
  ghost predicate IdleFor(s: State, idle: IdleAt)
    requires idle.Counting? || idle.Sending?
  {
    0 < idle.last && idle.last + s.idleWindow <= idle.lookedAt && idle.readAt <= idle.lookedAt
  }

  ghost predicate Inv(s: State)
  {
    ChannelOk(s) && StopperOk(s) && RegistryOk(s) && SlotsOk(s) && DrainOk(s) && ClockOk(s)
  }

  lemma InitialInv(s: State)
    requires Initial(s)
    ensures Inv(s)
  {
    assert SlotHolders(s) == {};
  }

  lemma SendKept(s: State, t: State, reason: Reason)
    requires ChannelOk(s)
    requires t.channel == s.channel + [reason] && t.sent == s.sent + [reason] && t.stopper == s.stopper
    requires (t.signal == SignalSent) <==> (s.signal == SignalSent || reason == BySignal)
    requires (t.idle == IdleSent) <==> (s.idle == IdleSent || reason == ByIdle)
    requires reason == BySignal ==> s.signal != SignalSent
    requires reason == ByIdle ==> s.idle != IdleSent
    ensures ChannelOk(t)
  {
    if s.stopper != Listening { assert t.sent[1..] == s.sent[1..] + [reason]; }
  }

  /** A step that sends or receives on the channel. */
  predicate OfChannel(a: Action)
  {
    a in {SendSignal, IdleSend, TakeReason}
  }

  lemma SendersAlone(s: State, a: Action)
    requires Enabled(s, a) && !OfChannel(a)
    ensures var t := Do(s, a);
            && (t.stopper == Listening <==> s.stopper == Listening)
            && (t.signal == SignalSent <==> s.signal == SignalSent) && (t.idle == IdleSent <==> s.idle == IdleSent)
  {
    Frame(s, a);
  }

  /** What each kind of step leaves alone. */
  lemma Frame(s: State, a: Action)
    requires Enabled(s, a)
    ensures var t := Do(s, a);
            && t.idleWindow == s.idleWindow && s.clock <= t.clock && (t.exited <==> a == Exit)
            && (t.lastActivity == s.lastActivity || t.lastActivity == t.clock)
            && (!OfStopper(a) ==>
                  t.stopper == s.stopper && t.graceful == s.graceful && t.gracefulCalls == s.gracefulCalls)
            && (!OfBuild(a) ==> t.builds == s.builds && t.inflight == s.inflight)
            && (!OfChannel(a) ==> t.channel == s.channel && t.sent == s.sent)
            && (!OfIdle(a) ==> t.idle == s.idle)
            && (a != TakeSignal && a != SendSignal ==> t.signal == s.signal)
  {
    match a {
      case Elapse(_) => case OtherCall =>
      case Start(_, _) => case Acquire(_) => case Abandon(_) => case Register(_) =>
      case Finish(_) => case Release(_) => case Return(_) =>
      case Interrupt => case TakeSignal => case SendSignal =>
      case IdleRead => case IdleLook => case IdleCount => case IdleSend =>
      case TakeReason => case Launch => case CallGraceful => case ArmTimer =>
      case DrainEnds => case SeeDone => case HardStop => case Exit =>
    }
  }

  lemma ChannelKept(s: State, a: Action)
    requires ChannelOk(s) && Enabled(s, a)
    ensures ChannelOk(Do(s, a))
  {
    if a == SendSignal {
      SendKept(s, Do(s, a), BySignal);
    } else if a == IdleSend {
      SendKept(s, Do(s, a), ByIdle);
    } else if a != TakeReason {
      SendersAlone(s, a);
    }
  }

  /** A step of the stopper, or of the goroutine it starts. */
  predicate OfStopper(a: Action)
  {
    a in {TakeReason, Launch, CallGraceful, ArmTimer, DrainEnds, SeeDone, HardStop}
  }

  lemma StopperKept(s: State, a: Action)
    requires StopperOk(s) && Enabled(s, a)
    ensures StopperOk(Do(s, a))
  {
    Frame(s, a);
  }

  lemma DrainKept(s: State, a: Action)
    requires StopperOk(s) && DrainOk(s) && Enabled(s, a)
    ensures DrainOk(Do(s, a))
  {
    Frame(s, a);
  }

  lemma RegisterKept(s: State, id: nat)
    requires RegistryOk(s) && Enabled(s, Register(id))
    ensures RegistryOk(Do(s, Register(id)))
  {
  }

  lemma FinishKept(s: State, id: nat)
    requires RegistryOk(s) && Enabled(s, Finish(id))
    ensures RegistryOk(Do(s, Finish(id)))
  {
  }

  /** A step of a build call. */
  predicate OfBuild(a: Action)
  {
    a.Start? || a.Acquire? || a.Abandon? || a.Register? || a.Finish? || a.Release? || a.Return?
  }

  lemma RegistryKept(s: State, a: Action)
    requires RegistryOk(s) && Enabled(s, a)
    ensures RegistryOk(Do(s, a))
  {
    if a.Register? {
      RegisterKept(s, a.id);
    } else if a.Finish? {
      FinishKept(s, a.id);
    } else {
      Frame(s, a);
      SameBuilders(s, Do(s, a));
    }
  }

  lemma SameBuilders(s: State, t: State)
    requires RegistryOk(s) && t.inflight == s.inflight
    requires forall id :: InPhase(s, id, Building) || InPhase(t, id, Building) ==>
               id in s.builds && id in t.builds && t.builds[id] == s.builds[id]
    ensures RegistryOk(t)
  {
  }

  lemma SlotsKept(s: State, a: Action)
    requires SlotsOk(s) && Enabled(s, a)
    ensures SlotsOk(Do(s, a))
  {
    var t := Do(s, a);
    if a.Acquire? {
      assert SlotHolders(t) == SlotHolders(s) + {a.id};
    } else {
      assert SlotHolders(t) <= SlotHolders(s);
      Text.SubsetSize(SlotHolders(t), SlotHolders(s));
    }
  }

  lemma ClockKept(s: State, a: Action)
    requires ClockOk(s) && Enabled(s, a)
    ensures ClockOk(Do(s, a))
  {
    Frame(s, a);
  }

  lemma StepKeepsInv(s: State, a: Action)
    requires Inv(s) && Enabled(s, a)
    ensures Inv(Do(s, a))
  {
    ChannelKept(s, a);
    StopperKept(s, a);
    DrainKept(s, a);
    RegistryKept(s, a);
    SlotsKept(s, a);
    ClockKept(s, a);
  }

  lemma {:induction false} RunKeepsInv(s: State, run: seq<Action>)
    requires Inv(s) && CanRun(s, run)
    ensures Inv(After(s, run))
    decreases |run|
  {
    if run != [] {
      StepKeepsInv(s, run[0]);
      RunKeepsInv(Do(s, run[0]), run[1..]);
    }
  }

  // ------------------------------------------------------ safety of every run

  ghost function BuildingIds(s: State): set<nat>
  {
    set id | id in s.builds && s.builds[id].phase == Building
  }

  /** In every interleaving: each reason is sent at most once, so the channel never
      overflows and no sender ever waits; one graceful stop; a hard stop only ten
      seconds or more after the reason was taken; and a daemon that exits without
      one leaves no call unfinished. */
  lemma ShutdownIsSafe(s0: State, run: seq<Action>)
    requires Initial(s0) && CanRun(s0, run)
    ensures var s := After(s0, run);
            && |s.sent| <= 2 && (|s.sent| == 2 ==> s.sent[0] != s.sent[1])
            && |s.channel| <= CAPACITY
            && (s.signal == HasSignal || s.idle.Sending? ==> |s.channel| < CAPACITY)
            && s.gracefulCalls <= 1
            && (s.stopper.HardStopped? ==> s.stopper.takenAt + GRACE <= s.stopper.stoppedAt)
            && (s.exited && !s.stopper.HardStopped? ==> s.builds == map[])
  {
    InitialInv(s0);
    RunKeepsInv(s0, run);
    var s := After(s0, run);
    if |s.sent| == 2 {
      assert BySignal in s.sent && ByIdle in s.sent;
    }
  }

  /** In every interleaving the number of builds in flight is the number of calls
      between registration and deregistration, and at most `slots` calls run. */
  lemma RegistryCountsBuilds(s0: State, run: seq<Action>)
    requires Initial(s0) && CanRun(s0, run)
    ensures |After(s0, run).inflight| == |BuildingIds(After(s0, run))|
    ensures |SlotHolders(After(s0, run))| <= After(s0, run).slots
  {
    InitialInv(s0);
    RunKeepsInv(s0, run);
    CountedOnce(After(s0, run).inflight, BuildingIds(After(s0, run)));
  }

  lemma {:induction false} CountedOnce(m: map<string, nat>, ids: set<nat>)
    requires forall r :: r in m ==> m[r] in ids
    requires forall r, q :: r in m && q in m && r != q ==> m[r] != m[q]
    requires forall id :: id in ids ==> exists r :: r in m && m[r] == id
    ensures |m| == |ids|
    decreases |ids|
  {
    if ids == {} {
      assert m.Keys == {};
    } else {
      var id :| id in ids;
      var r :| r in m && m[r] == id;
      var rest := m - {r};
      forall i | i in ids - {id} ensures exists q :: q in rest && rest[q] == i {
        var q :| q in m && m[q] == i;
        assert q in rest;
      }
      CountedOnce(rest, ids - {id});
      OneKeyLess(m, r);
    }
  }

  lemma OneKeyLess(m: map<string, nat>, r: string)
    requires r in m
    ensures |m - {r}| == |m| - 1
  {
    assert m.Keys == (m - {r}).Keys + {r};
  }

  /** The stopper stops once: after a hard stop its state never changes. */
  lemma {:induction false} HardStopIsFinal(s: State, run: seq<Action>)
    requires s.stopper.HardStopped? && CanRun(s, run)
    ensures After(s, run).stopper == s.stopper
    decreases |run|
  {
    if run != [] {
      HardStopIsFinal(Do(s, run[0]), run[1..]);
    }
  }

  // ------------------------------------------------------------ the idle rule

  /** One poll of the idle loop, taken without interruption, decides to stop. */
  ghost predicate TickFires(s: State)
    requires Enabled(s, IdleRead)
  {
    var read := Do(s, IdleRead);
    read.idle.Loaded? &&
    var looked := Do(read, IdleLook);
    looked.idle.Counting? && Do(looked, IdleCount).idle.Sending?
  }

  /** An uninterrupted poll stops the daemon exactly when the last activity is at
      least the idle window old and no build is registered; it is then free to send. */
  lemma TickFiresIff(s0: State, run: seq<Action>)
    requires Initial(s0) && CanRun(s0, run) && Enabled(After(s0, run), IdleRead)
    ensures var s := After(s0, run);
            && (TickFires(s) <==>
                  s.lastActivity != 0 && s.idleWindow <= s.clock - s.lastActivity && BuildingIds(s) == {})
            && (TickFires(s) ==> Enabled(s.(idle := Sending(s.lastActivity, s.clock, s.clock, s.clock)), IdleSend))
  {
    InitialInv(s0);
    RunKeepsInv(s0, run);
    RegistryCountsBuilds(s0, run);
    RoomForIdle(After(s0, run));
    OnePoll(After(s0, run));
  }

  lemma ReadDoes(s: State)
    requires Enabled(s, IdleRead)
    ensures var next := s.idle.nextTick + POLL;
            Do(s, IdleRead) ==
            s.(idle := if s.lastActivity == 0 then Polling(next) else Loaded(next, s.lastActivity, s.clock))
  {
  }

  lemma LookDoes(s: State)
    requires Enabled(s, IdleLook)
    ensures Do(s, IdleLook) ==
            s.(idle := if s.clock - s.idle.last < s.idleWindow then Polling(s.idle.nextTick)
                       else Counting(s.idle.nextTick, s.idle.last, s.idle.readAt, s.clock))
  {
  }

  lemma CountDoes(s: State)
    requires Enabled(s, IdleCount)
    ensures Do(s, IdleCount) ==
            s.(idle := if |s.inflight| > 0 then Polling(s.idle.nextTick)
                       else Sending(s.idle.last, s.idle.readAt, s.idle.lookedAt, s.clock))
  {
  }

  /** The steps of one poll, taken together. */
  lemma OnePoll(s: State)
    requires Enabled(s, IdleRead)
    ensures TickFires(s) <==>
            s.lastActivity != 0 && s.idleWindow <= s.clock - s.lastActivity && |s.inflight| == 0
  {
    ReadDoes(s);
    var read := Do(s, IdleRead);
    if read.idle.Loaded? {
      LookDoes(read);
      var looked := Do(read, IdleLook);
      if looked.idle.Counting? { CountDoes(looked); }
    }
  }

  /** While the idle loop has not sent, it can. */
  lemma RoomForIdle(s: State)
    requires ChannelOk(s) && s.idle != IdleSent
    ensures |s.channel| < CAPACITY
  {
  }

  /** A poll fires over calls that have not returned exactly when there are some
      and all of them are outside the registry: queued, or past deregistration. */
  lemma PollFiresOverCallsIff(s0: State, run: seq<Action>)
    requires Initial(s0) && CanRun(s0, run) && Enabled(After(s0, run), IdleRead)
    ensures var s := After(s0, run);
            (TickFires(s) && s.builds != map[]) <==>
            && s.lastActivity != 0 && s.idleWindow <= s.clock - s.lastActivity
            && s.builds != map[] && forall id :: id in s.builds ==> s.builds[id].phase != Building
  {
    TickFiresIff(s0, run);
    var s := After(s0, run);
    assert BuildingIds(s) == {} <==> forall id :: id in s.builds ==> s.builds[id].phase != Building by {
      forall id | id in s.builds ensures id in BuildingIds(s) <==> s.builds[id].phase == Building {}
      if BuildingIds(s) != {} { var id :| id in BuildingIds(s); }
    }
  }

  // ------------------------------------------------- every interleaving

  /** The state before step `k` of a run. */
  ghost function StateAt(s: State, run: seq<Action>, k: nat): State
    requires CanRun(s, run) && k <= |run|
    decreases k
  {
    if k == 0 then s else StateAt(Do(s, run[0]), run[1..], k - 1)
  }

  lemma {:induction false} StateAtEnd(s: State, run: seq<Action>)
    requires CanRun(s, run)
    ensures StateAt(s, run, |run|) == After(s, run)
    decreases |run|
  {
    if run != [] { StateAtEnd(Do(s, run[0]), run[1..]); }
  }

  lemma {:induction false} StateAtNext(s: State, run: seq<Action>, k: nat)
    requires CanRun(s, run) && k < |run|
    ensures Enabled(StateAt(s, run, k), run[k])
    ensures StateAt(s, run, k + 1) == Do(StateAt(s, run, k), run[k])
    decreases k
  {
    if k > 0 { StateAtNext(Do(s, run[0]), run[1..], k - 1); }
  }

  lemma {:induction false} StateAtInv(s: State, run: seq<Action>, k: nat)
    requires CanRun(s, run) && k <= |run| && Inv(s)
    ensures Inv(StateAt(s, run, k))
    decreases k
  {
    if k > 0 {
      StepKeepsInv(s, run[0]);
      StateAtInv(Do(s, run[0]), run[1..], k - 1);
    }
  }

  /** Step `k` registers the build; a request that is already registered does not. */
  ghost predicate RegistersAt(s: State, run: seq<Action>, k: nat, id: nat)
    requires CanRun(s, run) && k < |run|
  {
    run[k] == Register(id) && Registers(StateAt(s, run, k), id)
  }

  ghost predicate Registers(s: State, id: nat)
  {
    id in s.builds && s.builds[id].request !in s.inflight
  }

  /** The build registers at step `k` and has not finished before step `n`. */
  ghost predicate InFlightSince(s: State, run: seq<Action>, k: nat, n: nat, id: nat)
    requires CanRun(s, run) && n <= |run|
  {
    k < n && RegistersAt(s, run, k, id) && forall m :: k < m < n ==> run[m] != Finish(id)
  }

  lemma BuildingStep(s: State, a: Action, id: nat)
    requires Enabled(s, a)
    ensures InPhase(Do(s, a), id, Building) <==>
            (InPhase(s, id, Building) && a != Finish(id)) || (a == Register(id) && Registers(s, id))
  {
    Frame(s, a);
  }

  /** A build that was not in flight at step `j` is at step `n` exactly when it
      registered in between and has not finished since. */
  lemma {:induction false} InFlightIff(s: State, run: seq<Action>, j: nat, n: nat, id: nat)
    requires CanRun(s, run) && j <= n <= |run| && !InPhase(StateAt(s, run, j), id, Building)
    ensures InPhase(StateAt(s, run, n), id, Building) <==> exists k :: j <= k < n && InFlightSince(s, run, k, n, id)
    decreases n
  {
    if j < n {
      InFlightIff(s, run, j, n - 1, id);
      StateAtNext(s, run, n - 1);
      BuildingStep(StateAt(s, run, n - 1), run[n - 1], id);
      OneStepLonger(s, run, j, n - 1, n, id);
    }
  }

  lemma OneStepLonger(s: State, run: seq<Action>, j: nat, p: nat, n: nat, id: nat)
    requires CanRun(s, run) && j <= p < |run| && n == p + 1
    ensures (exists k :: j <= k < n && InFlightSince(s, run, k, n, id)) <==>
            || ((exists k :: j <= k < p && InFlightSince(s, run, k, p, id)) && run[p] != Finish(id))
            || RegistersAt(s, run, p, id)
  {
    if k :| j <= k < p && InFlightSince(s, run, k, p, id) && run[p] != Finish(id) {
      SinceLonger(s, run, k, p, id);
    }
    SinceNow(s, run, p, id);
    if k :| j <= k < p && InFlightSince(s, run, k, n, id) {
      SinceLonger(s, run, k, p, id);
    }
  }

  lemma SinceLonger(s: State, run: seq<Action>, k: nat, p: nat, id: nat)
    requires CanRun(s, run) && k < p < |run|
    ensures InFlightSince(s, run, k, p + 1, id) <==> InFlightSince(s, run, k, p, id) && run[p] != Finish(id)
  {
  }

  lemma SinceNow(s: State, run: seq<Action>, p: nat, id: nat)
    requires CanRun(s, run) && p < |run|
    ensures InFlightSince(s, run, p, p + 1, id) <==> RegistersAt(s, run, p, id)
  {
  }

  /** How the idle loop gets on in a step from `s` to `t`. */
  ghost predicate IdleMoves(s: State, a: Action, t: State)
  {
    && (t.idle.Loaded? && t.idle != s.idle ==>
          a == IdleRead && t.idle.last == s.lastActivity && t.idle.readAt == s.clock)
    && (t.idle.Counting? && t.idle != s.idle ==>
          && a == IdleLook && s.idle.Loaded? && t.idle.lookedAt == s.clock
          && t.idle.last == s.idle.last && t.idle.readAt == s.idle.readAt)
    && (t.idle.Sending? && t.idle != s.idle ==>
          && a == IdleCount && s.idle.Counting? && s.inflight == map[] && t.idle.countedAt == s.clock
          && t.idle.last == s.idle.last && t.idle.readAt == s.idle.readAt && t.idle.lookedAt == s.idle.lookedAt)
    && (OfPoll(a) ==> t.idle != s.idle)
  }

  lemma IdleStep(s: State, a: Action)
    requires Enabled(s, a)
    ensures IdleMoves(s, a, Do(s, a))
  {
    Frame(s, a);
  }

  lemma IdleMovesAt(s: State, run: seq<Action>, k: nat)
    requires CanRun(s, run) && k < |run|
    ensures IdleMoves(StateAt(s, run, k), run[k], StateAt(s, run, k + 1))
  {
    StateAtNext(s, run, k);
    IdleStep(StateAt(s, run, k), run[k]);
  }

  /** A step of one poll before the send. */
  predicate OfPoll(a: Action)
  {
    a in {IdleRead, IdleLook, IdleCount}
  }

  /** A step that changes where the idle loop is. */
  predicate OfIdle(a: Action)
  {
    a in {IdleRead, IdleLook, IdleCount, IdleSend, Exit}
  }

  /** No poll step between `i` and `n`, both left out. */
  ghost predicate NoPoll(run: seq<Action>, i: nat, n: nat)
    requires n <= |run|
  {
    forall k :: i < k < n ==> !OfPoll(run[k])
  }

  lemma NoPollYet(run: seq<Action>, i: nat, n: nat)
    requires n < |run| && NoPoll(run, i, n) && !OfPoll(run[n])
    ensures NoPoll(run, i, n + 1)
  {
  }

  lemma {:induction false} ReadEarlier(s: State, run: seq<Action>, n: nat) returns (i: nat)
    requires CanRun(s, run) && n <= |run| && !s.idle.Loaded? && StateAt(s, run, n).idle.Loaded?
    ensures i < n && run[i] == IdleRead && NoPoll(run, i, n)
    ensures var t, at := StateAt(s, run, n), StateAt(s, run, i);
            t.idle.last == at.lastActivity && t.idle.readAt == at.clock
    decreases n
  {
    IdleMovesAt(s, run, n - 1);
    if StateAt(s, run, n - 1).idle == StateAt(s, run, n).idle {
      i := ReadEarlier(s, run, n - 1);
      NoPollYet(run, i, n - 1);
    } else {
      i := n - 1;
    }
  }

  lemma {:induction false} LookedEarlier(s: State, run: seq<Action>, n: nat) returns (i: nat, l: nat)
    requires CanRun(s, run) && n <= |run| && !s.idle.Loaded? && !s.idle.Counting? && StateAt(s, run, n).idle.Counting?
    ensures i < l < n && run[i] == IdleRead && run[l] == IdleLook && NoPoll(run, i, l) && NoPoll(run, l, n)
    ensures var t, at := StateAt(s, run, n), StateAt(s, run, i);
            t.idle.last == at.lastActivity && t.idle.readAt == at.clock
    ensures StateAt(s, run, n).idle.lookedAt == StateAt(s, run, l).clock
    decreases n
  {
    IdleMovesAt(s, run, n - 1);
    if StateAt(s, run, n - 1).idle == StateAt(s, run, n).idle {
      i, l := LookedEarlier(s, run, n - 1);
      NoPollYet(run, l, n - 1);
    } else {
      l := n - 1;
      i := ReadEarlier(s, run, n - 1);
    }
  }

  lemma {:induction false} CountedEarlier(s: State, run: seq<Action>, n: nat) returns (i: nat, l: nat, j: nat)
    requires CanRun(s, run) && n <= |run| && !s.idle.Loaded? && !s.idle.Counting? && !s.idle.Sending?
    requires StateAt(s, run, n).idle.Sending?
    ensures i < l < j < n && run[i] == IdleRead && run[l] == IdleLook && run[j] == IdleCount
    ensures NoPoll(run, i, l) && NoPoll(run, l, j) && NoPoll(run, j, n)
    ensures var t, at := StateAt(s, run, n), StateAt(s, run, i);
            t.idle.last == at.lastActivity && t.idle.readAt == at.clock
    ensures StateAt(s, run, n).idle.lookedAt == StateAt(s, run, l).clock
    ensures var t, at := StateAt(s, run, n), StateAt(s, run, j); t.idle.countedAt == at.clock && at.inflight == map[]
    decreases n
  {
    IdleMovesAt(s, run, n - 1);
    if StateAt(s, run, n - 1).idle == StateAt(s, run, n).idle {
      i, l, j := CountedEarlier(s, run, n - 1);
      NoPollYet(run, j, n - 1);
    } else {
      j := n - 1;
      i, l := LookedEarlier(s, run, n - 1);
    }
  }

  /** Interrupted or not, when the loop is about to send, the run has one read, one
      look at the clock and one count, in this order: the timestamp sent for is the
      server's at the read, it was at least the idle window old at the look, and at
      the count the registry was empty. */
  lemma IdleReasonWasEarned(s0: State, run: seq<Action>) returns (i: nat, l: nat, j: nat)
    requires Initial(s0) && CanRun(s0, run) && After(s0, run).idle.Sending?
    ensures i < l < j < |run| && run[i] == IdleRead && run[l] == IdleLook && run[j] == IdleCount
    ensures NoPoll(run, i, l) && NoPoll(run, l, j) && NoPoll(run, j, |run|)
    ensures var last := After(s0, run).idle.last;
            0 < last == StateAt(s0, run, i).lastActivity && last + s0.idleWindow <= StateAt(s0, run, l).clock
    ensures var counted := StateAt(s0, run, j); counted.inflight == map[] && BuildingIds(counted) == {}
  {
    InitialInv(s0);
    RunKeepsInv(s0, run);
    StateAtEnd(s0, run);
    WindowKept(s0, run, |run|);
    i, l, j := CountedEarlier(s0, run, |run|);
    StateAtInv(s0, run, j);
    var counted := StateAt(s0, run, j);
    forall id ensures !InPhase(counted, id, Building) {}
    assert BuildingIds(counted) == {} by {
      if id :| id in BuildingIds(counted) { assert InPhase(counted, id, Building); }
    }
  }

  lemma {:induction false} WindowKept(s: State, run: seq<Action>, k: nat)
    requires CanRun(s, run) && k <= |run|
    ensures StateAt(s, run, k).idleWindow == s.idleWindow
    decreases k
  {
    if k > 0 {
      StateAtNext(s, run, k - 1);
      WindowKept(s, run, k - 1);
      Frame(StateAt(s, run, k - 1), run[k - 1]);
    }
  }

  /** The exact condition under which a build is in flight when the idle reason is
      sent: it registered after the count, and has not finished since. */
  lemma InFlightAtTheSendIff(s0: State, run: seq<Action>, id: nat) returns (j: nat)
    requires Initial(s0) && CanRun(s0, run) && After(s0, run).idle.Sending?
    ensures j < |run| && run[j] == IdleCount && NoPoll(run, j, |run|)
    ensures InPhase(After(s0, run), id, Building) <==>
            exists k :: j < k < |run| && InFlightSince(s0, run, k, |run|, id)
  {
    var i, l;
    i, l, j := IdleReasonWasEarned(s0, run);
    StateAtNext(s0, run, j);
    var counted := StateAt(s0, run, j);
    BuildingStep(counted, IdleCount, id);
    assert id !in BuildingIds(counted);
    InFlightIff(s0, run, j + 1, |run|, id);
    StateAtEnd(s0, run);
  }

  // ------------------------------------------- idleness is noticed in time

  /** The clock at the last look before step `k`, or at the start. */
  ghost function LastLook(s: State, run: seq<Action>, k: nat): nat
    requires CanRun(s, run) && k <= |run|
  {
    if k == 0 then s.clock
    else if run[k - 1] == IdleLook then StateAt(s, run, k - 1).clock
    else LastLook(s, run, k - 1)
  }

  /** From step `q` on nothing touches the timestamp `a`, and no build is in flight. */
  ghost predicate QuietFrom(s: State, run: seq<Action>, q: nat, a: nat)
    requires CanRun(s, run)
  {
    forall k :: q <= k <= |run| ==> StateAt(s, run, k).lastActivity == a && StateAt(s, run, k).inflight == map[]
  }

  /** The loop has found the daemon idle. */
  predicate Decided(idle: IdleAt)
  {
    idle.Counting? || idle.Sending? || idle == IdleSent
  }

  lemma {:induction false} ClockGrows(s: State, run: seq<Action>, j: nat, k: nat)
    requires CanRun(s, run) && j <= k <= |run|
    ensures StateAt(s, run, j).clock <= StateAt(s, run, k).clock
    decreases k
  {
    if j < k {
      StateAtNext(s, run, k - 1);
      Frame(StateAt(s, run, k - 1), run[k - 1]);
      ClockGrows(s, run, j, k - 1);
    }
  }

  /** A last look later than step `q` came after step `q`. */
  lemma {:induction false} LookAfter(s: State, run: seq<Action>, q: nat, n: nat) returns (l: nat)
    requires CanRun(s, run) && q <= n <= |run| && StateAt(s, run, q).clock < LastLook(s, run, n)
    ensures q < l < n && run[l] == IdleLook && StateAt(s, run, l).clock == LastLook(s, run, n)
    ensures forall k :: l < k < n ==> run[k] != IdleLook
    decreases n
  {
    if q == n {
      LookIsPast(s, run, n);
    } else if run[n - 1] == IdleLook {
      l := n - 1;
    } else {
      l := LookAfter(s, run, q, n - 1);
    }
  }

  lemma {:induction false} LookIsPast(s: State, run: seq<Action>, n: nat)
    requires CanRun(s, run) && n <= |run|
    ensures LastLook(s, run, n) <= StateAt(s, run, n).clock
    decreases n
  {
    if n > 0 {
      ClockGrows(s, run, n - 1, n);
      if run[n - 1] != IdleLook { LookIsPast(s, run, n - 1); }
    }
  }

  lemma DecidedStep(s: State, a: Action)
    requires Enabled(s, a) && Decided(s.idle) && s.inflight == map[]
    ensures Decided(Do(s, a).idle)
  {
    Frame(s, a);
  }

  lemma {:induction false} StaysDecided(s: State, run: seq<Action>, l: nat, n: nat)
    requires CanRun(s, run) && l <= n <= |run| && Decided(StateAt(s, run, l).idle)
    requires forall k :: l <= k < n ==> StateAt(s, run, k).inflight == map[]
    ensures Decided(StateAt(s, run, n).idle)
    decreases n
  {
    if l < n {
      StaysDecided(s, run, l, n - 1);
      StateAtNext(s, run, n - 1);
      DecidedStep(StateAt(s, run, n - 1), run[n - 1]);
    }
  }

  /** Under every interleaving: if activity has ceased by step `q`, the last touch
      having been at `a`, and the loop looks at the clock at least every `gap`, then
      once the clock is more than `gap` past both `a + idleWindow` and step `q`, the
      loop has found the daemon idle for good: it is about to count an empty
      registry, about to send, or has sent. */
  lemma IdleIsNoticed(s0: State, run: seq<Action>, q: nat, a: nat, gap: nat)
    requires Initial(s0) && CanRun(s0, run) && q <= |run| && QuietFrom(s0, run, q, a)
    requires After(s0, run).clock <= LastLook(s0, run, |run|) + gap
    requires a + s0.idleWindow + gap < After(s0, run).clock && StateAt(s0, run, q).clock + gap < After(s0, run).clock
    ensures Decided(After(s0, run).idle) && After(s0, run).inflight == map[]
    ensures ByIdle in After(s0, run).sent <==> After(s0, run).idle == IdleSent
  {
    InitialInv(s0);
    StateAtEnd(s0, run);
    RunKeepsInv(s0, run);
    var l := LookAfter(s0, run, q, |run|);
    StateAtInv(s0, run, l);
    StateAtNext(s0, run, l);
    WindowKept(s0, run, l);
    assert Decided(StateAt(s0, run, l + 1).idle);
    StaysDecided(s0, run, l + 1, |run|);
  }

  // ------------------------------------------------- shutting down completes

  /** Some continuation without any step of a build ends the daemon by `deadline`. */
  ghost predicate ExitsBy(s: State, deadline: nat)
  {
    exists run :: CanRun(s, run) && NoBuildStep(run) && After(s, run).exited && After(s, run).clock <= deadline
  }

  ghost predicate NoBuildStep(run: seq<Action>)
  {
    forall k :: 0 <= k < |run| ==> !OfBuild(run[k])
  }

  lemma ExitsAfter(s: State, a: Action, deadline: nat)
    requires Enabled(s, a) && !OfBuild(a) && ExitsBy(Do(s, a), deadline)
    ensures ExitsBy(s, deadline)
  {
    var rest :| CanRun(Do(s, a), rest) && NoBuildStep(rest) && After(Do(s, a), rest).exited &&
                After(Do(s, a), rest).clock <= deadline;
    var run := [a] + rest;
    assert run[0] == a && run[1..] == rest;
    assert CanRun(s, run) && After(s, run) == After(Do(s, a), rest);
  }

  lemma ExitsNow(s: State)
    requires Enabled(s, Exit)
    ensures ExitsBy(s, s.clock)
  {
    var t := Do(s, Exit);
    assert CanRun(t, []) && NoBuildStep([]) && After(t, []) == t;
    ExitsAfter(s, Exit, s.clock);
  }

  lemma ExitsOnceArmed(s: State)
    requires !s.exited && s.stopper.Waiting? && s.stopper.armedAt <= s.clock
    ensures ExitsBy(s, s.clock + GRACE)
  {
    var wait := GRACE;
    var s1 := Do(s, Elapse(wait));
    var s2 := Do(s1, HardStop);
    ExitsNow(s2);
    ExitsAfter(s1, HardStop, s.clock + GRACE);
    ExitsAfter(s, Elapse(wait), s.clock + GRACE);
  }

  lemma ExitsOnceTaken(s: State)
    requires StopperOk(s) && !s.exited && s.stopper != Listening
    ensures ExitsBy(s, s.clock + GRACE)
  {
    match s.stopper {
      case Took(_) =>
        var s1 := Do(s, Launch);
        var s2 := Do(s1, ArmTimer);
        ExitsOnceArmed(s2);
        ExitsAfter(s1, ArmTimer, s.clock + GRACE);
        ExitsAfter(s, Launch, s.clock + GRACE);
      case Launched(_) =>
        ExitsOnceArmed(Do(s, ArmTimer));
        ExitsAfter(s, ArmTimer, s.clock + GRACE);
      case Waiting(_, _) => ExitsOnceArmed(s);
      case SawDone(_) => ExitsNow(s);
      case HardStopped(_, _) => ExitsNow(s);
    }
  }

  /** Once a reason has been sent, the daemon can exit within ten seconds without the
      help of any build, whatever else is going on. */
  lemma ShutdownCompletes(s0: State, run: seq<Action>)
    requires Initial(s0) && CanRun(s0, run)
    requires After(s0, run).sent != [] && !After(s0, run).exited
    ensures ExitsBy(After(s0, run), After(s0, run).clock + GRACE)
  {
    InitialInv(s0);
    RunKeepsInv(s0, run);
    var s := After(s0, run);
    if s.stopper == Listening {
      StepKeepsInv(s, TakeReason);
      ExitsOnceTaken(Do(s, TakeReason));
      ExitsAfter(s, TakeReason, s.clock + GRACE);
    } else {
      ExitsOnceTaken(s);
    }
  }

  // ------------------------------------------------- what does not hold

  /** Some run leads from `s0` to `s`. */
  ghost predicate Reaches(s0: State, s: State)
  {
    exists run :: CanRun(s0, run) && After(s0, run) == s
  }

  lemma {:induction false} RunMore(s0: State, run: seq<Action>, a: Action)
    requires CanRun(s0, run) && Enabled(After(s0, run), a)
    ensures CanRun(s0, run + [a]) && After(s0, run + [a]) == Do(After(s0, run), a)
    decreases |run|
  {
    if run == [] {
      assert [a][1..] == [];
      assert [] + [a] == [a];
    } else {
      RunMore(Do(s0, run[0]), run[1..], a);
      assert (run + [a])[1..] == run[1..] + [a];
    }
  }

  lemma Further(s0: State, s: State, a: Action)
    requires Reaches(s0, s) && Enabled(s, a)
    ensures Reaches(s0, Do(s, a))
  {
    var run :| CanRun(s0, run) && After(s0, run) == s;
    RunMore(s0, run, a);
  }

  lemma AtStart(s0: State)
    ensures Reaches(s0, s0)
  {
    assert CanRun(s0, []) && After(s0, []) == s0;
  }

  ghost function ExampleStart(): (s: State)
    ensures Initial(s)
  {
    State(1, 1, map[], map[], 1, false, AwaitSignal, 30 * SECOND, Polling(1 + POLL), Listening, NotStarted, 0, false,
          [], [])
  }

  /** A call that arrives at an empty server gets as far as its registration. */
  lemma BuildStarts(s0: State, s: State) returns (t: State)
    requires Reaches(s0, s) && !s.exited && Accepting(s) && s.slots >= 1
    requires s.builds == map[] && s.inflight == map[]
    ensures Reaches(s0, t)
    ensures t == s.(lastActivity := s.clock, builds := map[0 := Build("r", Building)], inflight := map["r" := 0])
  {
    var s1 := CallQueues(s);
    Further(s0, s, Start(0, "r"));
    var s2 := CallAcquires(s1);
    Further(s0, s1, Acquire(0));
    t := CallRegisters(s2);
    Further(s0, s2, Register(0));
  }

  lemma CallQueues(s: State) returns (t: State)
    requires !s.exited && Accepting(s) && s.builds == map[]
    ensures Enabled(s, Start(0, "r")) && t == Do(s, Start(0, "r"))
    ensures t == s.(lastActivity := s.clock, builds := map[0 := Build("r", Queued)])
  {
    t := Do(s, Start(0, "r"));
  }

  lemma CallAcquires(s: State) returns (t: State)
    requires !s.exited && s.slots >= 1 && s.builds == map[0 := Build("r", Queued)]
    ensures Enabled(s, Acquire(0)) && t == Do(s, Acquire(0)) && t == s.(builds := map[0 := Build("r", Holding)])
  {
    assert SlotHolders(s) == {};
    t := Do(s, Acquire(0));
  }

  lemma CallRegisters(s: State) returns (t: State)
    requires !s.exited && s.builds == map[0 := Build("r", Holding)] && s.inflight == map[]
    ensures Enabled(s, Register(0)) && t == Do(s, Register(0))
    ensures t == s.(builds := map[0 := Build("r", Building)], inflight := map["r" := 0])
  {
    t := Do(s, Register(0));
  }

  /** Timestamp and count are two reads: a build that starts between them and the
      send is registered, and just touched the timestamp, when the reason is sent. */
  lemma SplitReadsCanStopABuild() returns (s: State)
    ensures Reaches(ExampleStart(), s)
    ensures ByIdle in s.sent && InPhase(s, 0, Building) && s.lastActivity == s.clock
  {
    var s0 := ExampleStart();
    var s1 := PollDecides();
    var s2 := BuildStarts(s0, s1);
    s := Do(s2, IdleSend);
    Further(s0, s2, IdleSend);
  }

  lemma PollDecides() returns (s: State)
    ensures Reaches(ExampleStart(), s)
    ensures var now := 1 + 30 * SECOND; s == ExampleStart().(clock := now, idle := Sending(1, now, now, now))
  {
    var s0 := ExampleStart();
    AtStart(s0);
    var s1 := Passes(s0, s0, 30 * SECOND);
    s := PollReaches(s0, s1);
  }

  lemma Passes(s0: State, s: State, dt: nat) returns (t: State)
    requires Reaches(s0, s) && !s.exited
    ensures Reaches(s0, t) && t == s.(clock := s.clock + dt)
  {
    t := Do(s, Elapse(dt));
    Further(s0, s, Elapse(dt));
  }

  lemma PollReaches(s0: State, s: State) returns (t: State)
    requires Reaches(s0, s) && Enabled(s, IdleRead) && s.inflight == map[]
    requires s.lastActivity != 0 && s.idleWindow <= s.clock - s.lastActivity
    ensures Reaches(s0, t) && t == s.(idle := Sending(s.lastActivity, s.clock, s.clock, s.clock))
  {
    ReadDoes(s);
    var read := Do(s, IdleRead);
    Further(s0, s, IdleRead);
    LookDoes(read);
    var looked := Do(read, IdleLook);
    Further(s0, read, IdleLook);
    CountDoes(looked);
    t := Do(looked, IdleCount);
    Further(s0, looked, IdleCount);
  }

  /** A finishing build deregisters before it touches the timestamp. An
      uninterrupted poll in between stops the daemon although the call has not
      returned, so the idle clock is not always restarted by the build's end. */
  lemma PollCanBeatTheLastTouch() returns (s: State)
    ensures Reaches(ExampleStart(), s)
    ensures Enabled(s, IdleRead) && TickFires(s) && InPhase(s, 0, Ending)
  {
    var s0 := ExampleStart();
    AtStart(s0);
    var s1 := BuildStarts(s0, s0);
    var s2 := Passes(s0, s1, 60 * SECOND);
    s := CallDeregisters(s2);
    Further(s0, s2, Finish(0));
    OnePoll(s);
  }

  lemma CallDeregisters(s: State) returns (t: State)
    requires !s.exited && s.builds == map[0 := Build("r", Building)] && s.inflight == map["r" := 0]
    ensures Enabled(s, Finish(0)) && t == Do(s, Finish(0))
    ensures t == s.(builds := map[0 := Build("r", Ending)], inflight := map[])
  {
    t := Do(s, Finish(0));
  }
}

/** `runIdleLoop` by itself: what it sees at each tick decides when it sends. */
module IdleLoop {
  import opened Shutdown

  /** One wake-up: the context is done, or a tick. A tick reads the timestamp, then
      the clock, then the number of builds, each at its own time. */
  datatype Wake = Done | Tick(readAt: nat, last: nat, now: nat, inflight: nat, countedAt: nat)

  datatype Outcome = Running | Stopped | SentAt(tick: nat)

  predicate Fires(w: Wake, idle: nat)
  {
    w.Tick? && w.last != 0 && w.now - w.last >= idle && w.inflight == 0
  }

  /** Up to here the loop goes on: only ticks, none of which fires. */
  ghost predicate GoesOn(wakes: seq<Wake>, idle: nat, k: nat)
    requires k <= |wakes|
  {
    forall i :: 0 <= i < k ==> wakes[i].Tick? && !Fires(wakes[i], idle)
  }

  /** The loop ends at the first wake-up that is cancelled or fires. */
  ghost predicate EndsWith(wakes: seq<Wake>, idle: nat, r: Outcome)
  {
    match r
    case Running => GoesOn(wakes, idle, |wakes|)
    case Stopped => exists k :: 0 <= k < |wakes| && wakes[k] == Done && GoesOn(wakes, idle, k)
    case SentAt(k) => k < |wakes| && Fires(wakes[k], idle) && GoesOn(wakes, idle, k)
  }

  method RunIdleLoop(wakes: seq<Wake>, idle: nat) returns (r: Outcome)
    ensures EndsWith(wakes, idle, r)
  {
    for k := 0 to |wakes|
      invariant GoesOn(wakes, idle, k)
    {
      match wakes[k]
      case Done => return Stopped;
      case Tick(_, last, now, inflight, _) =>
        if last == 0 { continue; }
        if now - last < idle { continue; }
        if inflight > 0 { continue; }
        return SentAt(k);
    }
    r := Running;
  }

  /** A tick's three reads are in order, and the timestamp, seeded when the server
      is made, is not of the future. */
  ghost predicate InOrder(w: Wake)
  {
    w.Tick? && 0 < w.last <= w.readAt <= w.now <= w.countedAt
  }

  /** The loop, started at `start`, looks at the clock at least every `gap`: that is
      `POLL`, and whatever a dropped or late tick adds. */
  ghost predicate TicksWithin(wakes: seq<Wake>, start: nat, gap: nat)
  {
    && (forall k :: 0 <= k < |wakes| ==> InOrder(wakes[k]))
    && (|wakes| > 0 ==> wakes[0].now <= start + gap)
    && (forall k :: 0 < k < |wakes| ==> wakes[k].now <= wakes[k - 1].now + gap)
  }

  /** From `a` on nothing happens: no later touch, no build in flight. */
  ghost predicate QuietSince(wakes: seq<Wake>, a: nat)
  {
    forall k :: 0 <= k < |wakes| && wakes[k].Tick? ==>
      (a <= wakes[k].readAt ==> wakes[k].last == a) && (a <= wakes[k].countedAt ==> wakes[k].inflight == 0)
  }

  /** If activity ceases at `a`, the reason is sent by a tick that looks at the clock
      before `a + idle + gap`, and not before `a + idle` unless its read of the
      timestamp came before `a`. */
  lemma IdleIsNoticedInTime(wakes: seq<Wake>, idle: nat, start: nat, gap: nat, a: nat, r: Outcome)
    requires TicksWithin(wakes, start, gap) && QuietSince(wakes, a)
    requires start < a + idle && |wakes| > 0 && a + idle <= wakes[|wakes| - 1].now
    requires EndsWith(wakes, idle, r)
    ensures r.SentAt? && wakes[r.tick].now < a + idle + gap
    ensures wakes[r.tick].readAt < a || a + idle <= wakes[r.tick].now
  {
    assert InOrder(wakes[|wakes| - 1]);
    assert Fires(wakes[|wakes| - 1], idle);
    assert r.SentAt?;
    var k := r.tick;
    if k > 0 {
      assert InOrder(wakes[k - 1]) && !Fires(wakes[k - 1], idle);
      assert wakes[k - 1].now < a + idle;
    }
  }
}
