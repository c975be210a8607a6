/** The pool of MQTT agent commands and the message queue that carries them from callers
    to the agent. Commands are named by their index in the pool. */
module CommandPool {
  import opened Basics

  const POOL_SIZE := 32     // MQTT_COMMAND_CONTEXTS_POOL_SIZE
  const QUEUE_LENGTH := 32  // MQTT_AGENT_COMMAND_QUEUE_LENGTH

  /** The first `n` slots of the pool. */
  function Below(n: nat): set<nat> {
    set p: nat | p < n && IsIndex(p)
  }

  predicate IsIndex(p: int) {
    p >= 0
  }

  function Slots(): set<nat> {
    Below(POOL_SIZE)
  }

  lemma {:induction false} BelowIs(n: nat)
    ensures |Below(n)| == n
    ensures forall p: nat :: p in Below(n) <==> p < n
    ensures n > 0 ==> Below(n) == Below(n - 1) + {n - 1}
    ensures n == 0 ==> Below(n) == {}
  {
    if n > 0 {
      BelowIs(n - 1);
      assert Below(n) == Below(n - 1) + {n - 1};
    }
  }

  /** Every slot is in exactly one place: the free queue, a caller's hands, the message
      queue or the agent. */
  ghost predicate Conserved(free: seq<nat>, held: set<nat>, messages: seq<nat>, agent: set<nat>) {
    multiset(free) + multiset(held) + multiset(messages) + multiset(agent) == multiset(Slots())
  }

  /** By pigeonhole, a queue has room whenever some slot is elsewhere. */
  lemma Room(free: seq<nat>, held: set<nat>, messages: seq<nat>, agent: set<nat>)
    requires Conserved(free, held, messages, agent)
    ensures |free| + |held| + |messages| + |agent| == POOL_SIZE
    ensures forall p :: p in held || p in agent ==> p < POOL_SIZE
    ensures held != {} || agent != {} ==> |free| < POOL_SIZE && |messages| < QUEUE_LENGTH
    ensures POOL_SIZE == QUEUE_LENGTH == 32
  {
    hide Below;
    BelowIs(POOL_SIZE);
    var whole := multiset(free) + multiset(held) + multiset(messages) + multiset(agent);
    assert |multiset(Slots())| == POOL_SIZE;
    assert |whole| == |free| + |held| + |messages| + |agent|;
    forall p | p in held || p in agent
      ensures p < POOL_SIZE
    {
      assert p in whole;
    }
    if held != {} { var p :| p in held; assert held == held - {p} + {p}; }
    if agent != {} { var p :| p in agent; assert agent == agent - {p} + {p}; }
  }

  // ---------------------------------------------------------------------------
  // Steps of callers, socket and agent
  // ---------------------------------------------------------------------------

  /** Where the commands are, which notifications are set, and what went through the queue. */
  datatype Pool = Pool(
    free: seq<nat>, held: set<nat>, messages: seq<nat>, agent: set<nat>,
    socketReady: bool, queueReady: bool, sent: seq<nat>, received: seq<nat>)

  datatype Step = Initialize | Get | Release(p: nat) | SendOne(p: nat) | SocketReady | ReceiveOne

  /** Callers and agent release and send only what they hold. */
  predicate Allowed(s: Pool, step: Step) {
    match step
    case Release(p) => p in s.held || p in s.agent
    case SendOne(p) => p in s.held
    case _ => true
  }

  /** The first command of a queue moves on; no step is ever refused. */
  function Next(s: Pool, step: Step): Pool {
    match step
    case Initialize => s
    case Get =>
      if s.free == [] then s else s.(free := s.free[1..], held := s.held + {s.free[0]})
    case Release(p) =>
      s.(free := s.free + [p], held := s.held - {p}, agent := s.agent - {p})
    case SendOne(p) =>
      s.(messages := s.messages + [p], held := s.held - {p}, sent := s.sent + [p], queueReady := true)
    case SocketReady => s.(socketReady := true)
    case ReceiveOne =>
      var t := s.(socketReady := false, queueReady := false);
      if s.socketReady || !s.queueReady || s.messages == [] then t
      else t.(messages := s.messages[1..], agent := s.agent + {s.messages[0]}, received := s.received + [s.messages[0]])
  }

  function After(s: Pool, steps: seq<Step>): Pool {
    if steps == [] then s else Next(After(s, steps[..|steps| - 1]), steps[|steps| - 1])
  }

  class Commands {
    var created: bool        // xCommandPoolQueue != NULL
    var free: seq<nat>       // xCommandPoolQueue
    var messages: seq<nat>   // xAgentMessageCtx.xQueue
    var held: set<nat>       // taken by callers and not yet sent or released
    var agent: set<nat>      // received by the agent and not yet released
    var socketReady: bool    // MQTT_AGENT_NOTIFY_FLAG_SOCKET_RECV
    var queueReady: bool     // MQTT_AGENT_NOTIFY_FLAG_M_QUEUE
    ghost var sent: seq<nat>
    ghost var received: seq<nat>

    ghost predicate Valid()
      reads this
    {
      && created && Conserved(free, held, messages, agent)
      && sent == received + messages
    }

    /** Before the pool is initialised nothing is anywhere. */
    ghost predicate Unused()
      reads this
    {
      !created && free == [] && messages == [] && held == {} && agent == {} && sent == [] && received == []
    }

    constructor ()
      ensures Unused()
    {
      created, free, messages, held, agent := false, [], [], {}, {};
      socketReady, queueReady, sent, received := false, false, [], [];
    }

    /** Agent_InitializePool: only the first call fills the queue. */
    method InitializePool()
      requires Unused() || Valid()
      modifies this`created, this`free
      ensures Valid()
      ensures old(created) ==> free == old(free)
    {
      hide Below;
      if !created {
        created := true;
        BelowIs(0);
        for i := 0 to POOL_SIZE
          invariant created && |free| == i && multiset(free) == multiset(Below(i))
        {
          BelowIs(i);
          BelowIs(i + 1);
          if |free| < POOL_SIZE {
            free := free + [i];
          }
        }
      }
    }

    /** Agent_GetCommand: the oldest free command, or NULL if none arrives in time or the
        pool was never initialised. */
    method GetCommand() returns (c: Option<nat>)
      requires Unused() || Valid()
      modifies this`free, this`held
      ensures if old(Valid()) then Valid() else Unused()
      ensures c.Some? <==> old(free) != []
      ensures c.Some? ==> c.value == old(free)[0] && free == old(free)[1..] && held == old(held) + {c.value}
      ensures c.Some? ==> c.value !in old(held) && c.value !in messages && c.value !in agent && c.value !in free
      ensures c.None? ==> held == old(held) && free == old(free)
    {
      hide Below;
      c := None;
      if created && free != [] {
        var p := free[0];
        assert free == [p] + free[1..];
        TakenOnce(free, held, messages, agent);
        c, free, held := Some(p), free[1..], held + {p};
      }
    }

    /** Agent_ReleaseCommand of any pointer, given by its distance from the pool: the bound
        lets the address just behind the pool through. Releasing a command by whoever holds
        it is never refused and conserves the pool. */
    method ReleaseCommand(p: int) returns (ok: bool)
      requires Unused() || Valid()
      modifies this`free, this`held, this`agent
      ensures ok <==> old(created) && 0 <= p <= POOL_SIZE && |old(free)| < POOL_SIZE
      ensures free == if ok then old(free) + [p] else old(free)
      ensures held == (if ok then old(held) - {p} else old(held)) && agent == (if ok then old(agent) - {p} else old(agent))
      ensures p in old(held) || p in old(agent) ==> ok && Valid()
    {
      hide Below, Conserved;
      ok := false;
      if created {
        Room(free, held, messages, agent);
        if !(p < 0 || p > POOL_SIZE) && |free| < POOL_SIZE {
          if p in held || p in agent {
            ReleasedConserves(free, held, messages, agent, p);
          }
          ok, free, held, agent := true, free + [p], held - {p}, agent - {p};
        }
      }
    }

    /** prvAgentMessageSend of a command the caller holds: the queue always has room. */
    method Send(p: nat) returns (ok: bool)
      requires Valid() && p in held
      modifies this`messages, this`held, this`queueReady, this`sent
      ensures Valid() && ok && queueReady
      ensures messages == old(messages) + [p] && held == old(held) - {p} && sent == old(sent) + [p]
    {
      hide Below;
      Room(free, held, messages, agent);
      ok := |messages| < QUEUE_LENGTH;
      if ok {
        messages, held, sent := messages + [p], held - {p}, sent + [p];
      }
      queueReady := true;
    }

    /** prvSocketRecvReadyCallback */
    method SocketEvent()
      requires Valid()
      modifies this`socketReady
      ensures Valid() && socketReady
    {
      socketReady := true;
    }

    /** prvAgentMessageReceive: all notification bits are cleared; a pending socket event
        takes priority and leaves the queue alone. */
    method Receive() returns (c: Option<nat>)
      requires Valid()
      modifies this`messages, this`agent, this`socketReady, this`queueReady, this`received
      ensures Valid() && !socketReady && !queueReady
      ensures c.Some? <==> old(queueReady && !socketReady && messages != [])
      ensures c.Some? ==> c.value == old(messages)[0] && messages == old(messages)[1..]
      ensures c.Some? ==> agent == old(agent) + {c.value} && received == old(received) + [c.value]
      ensures c.None? ==> messages == old(messages) && agent == old(agent) && received == old(received)
    {
      hide Below;
      c := None;
      if socketReady || queueReady {
        var socket := socketReady;
        socketReady, queueReady := false, false;
        if !socket && messages != [] {
          var p := messages[0];
          assert messages == [p] + messages[1..];
          TakenOnce(messages, held, free, agent);
          c, messages, agent, received := Some(p), messages[1..], agent + {p}, received + [p];
        }
      }
    }

    ghost function State(): Pool
      reads this
    {
      Pool(free, held, messages, agent, socketReady, queueReady, sent, received)
    }

    /** One step: what the calls do is what the step says. */
    method Do(step: Step) returns (ok: bool)
      requires Valid() && Allowed(State(), step)
      modifies this
      ensures Valid() && ok && State() == Next(old(State()), step)
    {
      hide Below, Conserved;
      ok := true;
      match step {
        case Initialize => InitializePool();
        case Get => var c := GetCommand();
        case Release(p) => ok := ReleaseCommand(p);
        case SendOne(p) => ok := Send(p);
        case SocketReady => SocketEvent();
        case ReceiveOne => var c := Receive();
      }
    }

    /** Any run of callers, socket and agent that release and send only what they hold does
        exactly what its steps say: every release and send succeeds, no slot is lost, and the
        agent receives a prefix of what was sent, in order. */
    method AnyRun(steps: seq<Step>) returns (results: seq<bool>)
      requires Valid() && forall i :: 0 <= i < |steps| ==> Allowed(After(State(), steps[..i]), steps[i])
      modifies this
      ensures Valid() && State() == After(old(State()), steps)
      ensures |results| == |steps| && forall i :: 0 <= i < |steps| && (steps[i].Release? || steps[i].SendOne?) ==> results[i]
      ensures received <= sent && |free| + |held| + |messages| + |agent| == 32
    {
      hide Below, Conserved, Next, Allowed;
      ghost var s := State();
      results := [];
      for n := 0 to |steps|
        invariant Valid() && State() == After(s, steps[..n]) && |results| == n
        invariant forall i :: 0 <= i < n && (steps[i].Release? || steps[i].SendOne?) ==> results[i]
      {
        assert Allowed(State(), steps[n]);
        var ok := Do(steps[n]);
        results := results + [ok];
        assert steps[..n + 1][..n] == steps[..n];
      }
      assert steps[..|steps|] == steps;
      Room(free, held, messages, agent);
    }

    /** Notification bits do not count: after two sends one receive clears the bit for
        both, and the second command waits for the next notification. */
    method SecondCommandWaits(p: nat, q: nat) returns (first: Option<nat>, second: Option<nat>)
      requires Valid() && p in held && q in held && p != q && messages == [] && !socketReady && !queueReady
      modifies this
      ensures Valid() && first == Some(p) && second == None && messages == [q]
    {
      hide Below, Conserved;
      var a := Send(p);
      var b := Send(q);
      first := Receive();
      second := Receive();
    }
  }

  /** The head of a queue is nowhere else. */
  lemma TakenOnce(queue: seq<nat>, held: set<nat>, other: seq<nat>, agent: set<nat>)
    requires multiset(queue) + multiset(held) + multiset(other) + multiset(agent) == multiset(Slots()) && queue != []
    ensures queue[0] !in held && queue[0] !in other && queue[0] !in agent && queue[0] !in queue[1..]
  {
    hide Below;
    var p := queue[0];
    assert queue == [p] + queue[1..];
    assert multiset(queue) == multiset{p} + multiset(queue[1..]);
    assert multiset(Slots())[p] <= 1;
    assert multiset(queue[1..])[p] == 0 && multiset(other)[p] == 0;
  }

  /** A command moves from a holder to the end of the free queue. */
  lemma ReleasedConserves(free: seq<nat>, held: set<nat>, messages: seq<nat>, agent: set<nat>, p: nat)
    requires Conserved(free, held, messages, agent) && (p in held || p in agent)
    ensures Conserved(free + [p], held - {p}, messages, agent - {p})
  {
    hide Below;
    BelowIs(POOL_SIZE);
    assert multiset(Slots())[p] <= 1;
    assert multiset(held)[p] + multiset(agent)[p] <= 1;
    assert p in held ==> p !in agent;
    assert multiset(held - {p}) + multiset(agent - {p}) + multiset{p} == multiset(held) + multiset(agent);
  }
}
