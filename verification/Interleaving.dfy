/** The zero-crossing interrupt against the task that executes packets: every interleaving of their steps. */
module Interleaving {
  import opened Bytes
  import opened Timing
  import opened Frame
  import opened Command
  import opened Receiver
  import opened ReceiverProofs

  /** Where the executing task stands: it holds a reference into the ring between looking at the front and popping
      it. */
  datatype Task = Idle | Holding(index: nat) | Executed

  /** `received` and `executed` log packet contents; `history` is the running frame's bits. */
  datatype System = System(
    rx: Rx, task: Task, history: seq<SendBit>, received: seq<seq<Byte>>, executed: seq<seq<Byte>>)

  datatype Event = Crossing(time: nat) | Start | Body(env: Environment) | Pop

  const INITIAL: System := System(POWER_UP, Idle, [], [], [])

  /** The packet buffer must have room for a byte that completes. */
  ghost predicate CanStep(s: System, e: Event) {
    e.Crossing? ==> CanReceive(s.rx, Time2Bit(e.time, s.rx.rate))
  }

  /** One step; a step the task is not ready for does nothing. */
  ghost function Step(cfg: Config, s: System, e: Event): System
    requires cfg.Valid() && SystemInv(s) && CanStep(s, e)
  {
    match e
    case Crossing(time) =>
      var bit := Time2Bit(time, s.rx.rate);
      s.(rx := ReceiveBit(s.rx, bit),
         history := NextHistory(s.rx, s.history, bit),
         received := s.received + if Queues(s.rx, bit) then [s.rx.ring.End().Bytes()] else [])
    case Start =>
      if s.task == Idle && s.rx.ring.len > 0 then s.(task := Holding(s.rx.ring.front)) else s
    case Body(env) =>
      if s.task.Holding? then
        var packet := s.rx.ring.slots[s.task.index];
        s.(rx := ExecuteBody(cfg, packet, env, s.rx), task := Executed, executed := s.executed + [packet.Bytes()])
      else s
    case Pop =>
      if s.task == Executed then s.(rx := s.rx.(ring := s.rx.ring.PopFront()), task := Idle) else s
  }

  /** The executing task's slot is the queued one, and it is not the one being filled. */
  ghost predicate SlotsApart(s: System) {
    s.task != Idle ==>
      && s.rx.ring.len == 1
      && s.rx.ring.EndIndex() != s.rx.ring.front
      && (s.task.Holding? ==> s.task.index == s.rx.ring.front)
  }

  /** Every accepted packet has been executed once and in order, or still waits in the queue. */
  ghost predicate Conserved(s: System)
    requires s.rx.ring.Valid()
  {
    s.received == s.executed + if s.task == Executed then [] else s.rx.ring.Queue()
  }

  ghost predicate SystemInv(s: System) {
    Inv(s.rx, s.history) && SlotsApart(s) && Conserved(s)
  }

  lemma InitialInv()
    ensures SystemInv(INITIAL)
  {
    PowerUpInv();
  }

  /** Execution leaves everything the interrupt works on alone. */
  lemma {:induction false} BodyKeeps(cfg: Config, packet: Packet, env: Environment, s: Rx, h: seq<SendBit>)
    requires cfg.Valid() && packet.Valid() && Inv(s, h)
    ensures Inv(ExecuteBody(cfg, packet, env, s), h) && SameLine(s, ExecuteBody(cfg, packet, env, s))
  {
    BodyFields(cfg, packet, env, s);
  }

  /** The fields only the interrupt writes. */
  ghost predicate SameLine(s: Rx, t: Rx) {
    && t.phase == s.phase && t.bitCount == s.bitCount && t.ackreqCount == s.ackreqCount && t.byte == s.byte
    && t.crc8 == s.crc8 && t.crc32 == s.crc32 && t.ring == s.ring && t.active == s.active && t.nack == s.nack
  }

  lemma BodyFields(cfg: Config, packet: Packet, env: Environment, s: Rx)
    requires cfg.Valid() && packet.Valid()
    ensures SameLine(s, ExecuteBody(cfg, packet, env, s))
  {
    SelectedFields(cfg, packet.Code(), packet.Parameter(), env, s);
  }

  lemma SelectedFields(cfg: Config, cmd: Command, parameter: nat, env: Environment, s: Rx)
    requires cfg.Valid()
    ensures SameLine(s, SelectedBody(cfg, cmd, parameter, env, s))
  {
  }

  /** Popping moves the front, never the slot being filled. */
  lemma {:induction false} PopKeeps(s: Rx, h: seq<SendBit>)
    requires Inv(s, h) && s.ring.len == 1
    ensures Inv(s.(ring := s.ring.PopFront()), h)
    ensures s.ring.PopFront().EndIndex() == s.ring.EndIndex() && s.ring.PopFront().Queue() == []
  {
    assert s.ring.PopFront().End() == s.ring.End();
  }

  /** Any interleaving of the interrupt with the three steps of execution keeps the system consistent. */
  lemma {:induction false} StepKeepsInv(cfg: Config, s: System, e: Event)
    requires cfg.Valid() && SystemInv(s) && CanStep(s, e)
    ensures SystemInv(Step(cfg, s, e))
  {
    match e {
      case Crossing(time) =>
        CrossingKeepsInv(cfg, s, time);
      case Start =>
      case Body(env) =>
        if s.task.Holding? {
          BodyKeeps(cfg, s.rx.ring.slots[s.task.index], env, s.rx, s.history);
          assert s.rx.ring.Queue() == [s.rx.ring.Front().Bytes()];
        }
      case Pop =>
        if s.task == Executed { PopKeeps(s.rx, s.history); }
    }
  }

  lemma {:induction false} CrossingKeepsInv(cfg: Config, s: System, time: nat)
    requires cfg.Valid() && SystemInv(s) && CanStep(s, Crossing(time))
    ensures SystemInv(Step(cfg, s, Crossing(time)))
  {
    var bit := Time2Bit(time, s.rx.rate);
    StepInv(s.rx, s.history, bit);
    BitKeepsSettings(s.rx, bit);
  }

  // ----- whole runs

  ghost predicate Bounded(cfg: Config, s: System, events: seq<Event>)
    requires cfg.Valid() && SystemInv(s)
    decreases |events|
  {
    events == [] ||
    (&& CanStep(s, events[0])
     && (StepKeepsInv(cfg, s, events[0]); Bounded(cfg, Step(cfg, s, events[0]), events[1..])))
  }

  ghost function Run(cfg: Config, s: System, events: seq<Event>): (t: System)
    requires cfg.Valid() && SystemInv(s) && Bounded(cfg, s, events)
    ensures SystemInv(t)
    decreases |events|
  {
    if events == [] then s
    else (StepKeepsInv(cfg, s, events[0]); Run(cfg, Step(cfg, s, events[0]), events[1..]))
  }

  ghost predicate Reaches(cfg: Config, s: System, events: seq<Event>, t: System)
    requires cfg.Valid() && SystemInv(s)
  {
    Bounded(cfg, s, events) && Run(cfg, s, events) == t
  }

  /** A run is its first event and a run from there. */
  lemma ReachesFirst(cfg: Config, s: System, events: seq<Event>, t: System)
    requires cfg.Valid() && SystemInv(s) && events != [] && CanStep(s, events[0])
    ensures (StepKeepsInv(cfg, s, events[0]);
             Reaches(cfg, s, events, t) <==> Reaches(cfg, Step(cfg, s, events[0]), events[1..], t))
  {
    StepKeepsInv(cfg, s, events[0]);
  }

  lemma {:induction false} ReachesConcat(cfg: Config, s: System, a: seq<Event>, u: System, b: seq<Event>, t: System)
    requires cfg.Valid() && SystemInv(s) && SystemInv(u) && Reaches(cfg, s, a, u) && Reaches(cfg, u, b, t)
    ensures Reaches(cfg, s, a + b, t)
    decreases |a|
  {
    if a == [] {
      assert a + b == b;
    } else {
      var first, rest := a[0], a[1..];
      assert (a + b)[0] == first && (a + b)[1..] == rest + b;
      StepKeepsInv(cfg, s, first);
      ReachesFirst(cfg, s, a, u);
      ReachesConcat(cfg, Step(cfg, s, first), rest, u, b, t);
      ReachesFirst(cfg, s, a + b, t);
    }
  }

  /** One run after another is one run. */
  lemma {:induction false} RunConcat(cfg: Config, s: System, a: seq<Event>, b: seq<Event>)
    requires cfg.Valid() && SystemInv(s) && Bounded(cfg, s, a)
    requires Bounded(cfg, Run(cfg, s, a), b)
    ensures Bounded(cfg, s, a + b)
    ensures Run(cfg, s, a + b) == Run(cfg, Run(cfg, s, a), b)
  {
    var u := Run(cfg, s, a);
    ReachesConcat(cfg, s, a, u, b, Run(cfg, u, b));
  }

  /** Over every run within the packet size bound the slots stay apart and the logs only grow. */
  lemma {:induction false} RunExtendsLogs(cfg: Config, s: System, events: seq<Event>)
    requires cfg.Valid() && SystemInv(s) && Bounded(cfg, s, events)
    ensures s.received <= Run(cfg, s, events).received && s.executed <= Run(cfg, s, events).executed
    decreases |events|
  {
    if events != [] {
      StepKeepsInv(cfg, s, events[0]);
      RunExtendsLogs(cfg, Step(cfg, s, events[0]), events[1..]);
    }
  }

  lemma {:induction false} EveryRunIsSafe(cfg: Config, events: seq<Event>)
    requires cfg.Valid() && (InitialInv(); Bounded(cfg, INITIAL, events))
    ensures var s := (InitialInv(); Run(cfg, INITIAL, events));
            && s.rx.ring.len <= 1
            && (s.task != Idle ==> s.rx.ring.EndIndex() != s.rx.ring.front)
            && s.executed <= s.received
            && |s.received| <= |s.executed| + 1
  {
    InitialInv();
    var s := Run(cfg, INITIAL, events);
    assert |s.rx.ring.Queue()| == s.rx.ring.len;
  }
}
