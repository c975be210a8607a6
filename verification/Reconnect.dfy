/** The reconnect loop of the MQTT agent task: who owns the subscription mutex, what the
    connected bit says and when the subscription tables are reset. */
module Reconnect {

  datatype Holder = Nobody | AgentTask | OtherTask

  /** What network, broker and back-off answer in one pass of the outer loop. */
  datatype Answers = Answers(
    attempts: seq<bool>,   // which attempts connect the transport, until retries are exhausted
    mqttConnects: bool,    // MQTT_Connect succeeds
    sessionPresent: bool,  // and the broker still has the session
    resumes: bool,         // MQTTAgent_ResumeSession succeeds
    publish: bool,         // a publish arrives during the command loop
    retry: bool)           // the back-off permits another pass

  predicate Connects(answers: Answers) {
    true in answers.attempts
  }

  /** A pass that gets the task stuck, after `before` earlier sessions: a session is resumed,
      the broker still had it, and a publish arrives. */
  predicate Sticks(answers: Answers, before: nat) {
    && Connects(answers) && answers.mqttConnects && answers.publish
    && before > 0 && answers.resumes && answers.sessionPresent
  }

  /** The task goes on to another pass. */
  predicate GoesOn(answers: Answers, before: nat) {
    Connects(answers) && answers.retry && !Sticks(answers, before)
  }

  /** The sessions established by these passes, after `before` earlier ones. */
  function SessionsAfter(answers: seq<Answers>, before: nat): nat {
    if answers == [] then before
    else
      var n := |answers| - 1;
      var sessions := SessionsAfter(answers[..n], before);
      sessions + if Establishes(answers[n], sessions) then 1 else 0
  }

  predicate Establishes(answers: Answers, before: nat) {
    Connects(answers) && answers.mqttConnects && (before == 0 || answers.resumes)
  }

  lemma NoPasses(before: nat)
    ensures SessionsAfter([], before) == before
  {
  }

  lemma SessionsStep(answers: seq<Answers>, before: nat, i: nat)
    requires i < |answers|
    ensures var sessions := SessionsAfter(answers[..i], before);
            SessionsAfter(answers[..i + 1], before) == sessions + if Establishes(answers[i], sessions) then 1 else 0
  {
    assert answers[..i + 1][..i] == answers[..i];
  }

  /** What the passes made so far say about the whole list. */
  lemma NeverSticks(answers: seq<Answers>, before: nat, passes: nat)
    requires passes <= |answers|
    requires forall j :: 0 <= j < passes ==> !Sticks(answers[j], SessionsAfter(answers[..j], before))
    requires passes < |answers| ==> passes > 0 && !GoesOn(answers[passes - 1], SessionsAfter(answers[..passes - 1], before))
    ensures forall i :: 0 <= i < |answers| ==> !SticksAt(answers, before, i)
  {
    hide SessionsAfter, GoesOn, Sticks;
  }

  /** Pass `i` is reached, and it gets the task stuck. */
  predicate SticksAt(answers: seq<Answers>, before: nat, i: nat)
    requires i < |answers|
  {
    && Sticks(answers[i], SessionsAfter(answers[..i], before))
    && forall j :: 0 <= j < i ==> GoesOn(answers[j], SessionsAfter(answers[..j], before))
  }

  class Agent {
    var holder: Holder       // of the subscription mutex
    var connectedBit: bool   // EVT_MASK_MQTT_CONNECTED
    var transport: bool      // the TLS transport is connected
    var cleanSession: bool
    var exit: bool
    ghost var sessions: nat  // successful sessions so far
    ghost var resets: nat    // resets of the subscription tables by the loop

    /** What holds at every head of the outer loop. */
    ghost predicate AtHead()
      reads this
    {
      && holder == AgentTask && !connectedBit && !transport
      && (cleanSession <==> sessions == 0)
      && resets == (if sessions == 0 then 0 else 1)
    }

    /** The set-up before the loop: the mutex is created and taken, the first connection
        asks for a clean session. */
    constructor ()
      ensures AtHead() && !exit && sessions == 0
    {
      holder, connectedBit, transport, cleanSession, exit := AgentTask, false, false, true, false;
      sessions, resets := 0, 0;
    }

    /** Other tasks take and give the mutex, but never one that the agent owns. */
    method OtherTasks()
      modifies this`holder
      ensures old(holder) == AgentTask ==> holder == AgentTask
      ensures old(holder) != AgentTask ==> holder != AgentTask
    {
      if holder != AgentTask {
        if * { holder := OtherTask; } else { holder := Nobody; }
      }
    }

    /** xLockSubCtx by the agent, which waits until the mutex is free. */
    method Lock()
      requires holder != AgentTask
      modifies this`holder
      ensures holder == AgentTask
    {
      holder := AgentTask;
    }

    /** xUnlockSubCtx by the agent. */
    method Unlock()
      requires holder == AgentTask
      modifies this`holder
      ensures holder == Nobody
    {
      holder := Nobody;
    }

    /** prvSubscriptionManagerCtxReset */
    method ResetTables()
      requires holder == AgentTask
      modifies this`resets
      ensures resets == old(resets) + 1
    {
      resets := resets + 1;
    }

    /** prvHandleResubscribe: as written it always compacts, unlocks and reports success. */
    method Resubscribe()
      requires holder == AgentTask
      modifies this`holder
      ensures holder == Nobody
    {
      Unlock();
    }

    /** The command loop. An incoming publish takes the mutex for the time of its callbacks.
        The mutex is not recursive and the wait has no limit, so the task is stuck for good
        if it owns the mutex already. */
    method CommandLoop(publish: bool) returns (stuck: bool)
      requires connectedBit && transport
      modifies this`holder
      ensures stuck <==> publish && old(holder) == AgentTask
      ensures holder == AgentTask <==> old(holder) == AgentTask
    {
      stuck := false;
      OtherTasks();
      if publish {
        if holder == AgentTask {
          return true;
        }
        Lock();
        Unlock();
        OtherTasks();
      }
    }

    /** Establishing the MQTT session over a connected transport. Once established, the
        mutex is free unless an earlier session was resumed and the broker still had it. */
    method StartSession(answers: Answers) returns (ok: bool)
      requires AtHeadButConnected()
      modifies this
      ensures transport && !connectedBit && exit == old(exit)
      ensures ok <==> answers.mqttConnects && (old(cleanSession) || answers.resumes)
      ensures ok ==> (holder == AgentTask <==> !old(cleanSession) && answers.sessionPresent)
      ensures !ok ==> holder == AgentTask && cleanSession == old(cleanSession)
      ensures sessions == old(sessions) + (if ok then 1 else 0)
      ensures (cleanSession <==> sessions == 0) && resets == (if sessions == 0 then 0 else 1)
    {
      ok := answers.mqttConnects;
      if ok && !cleanSession {
        ok := answers.resumes;
        if ok && !answers.sessionPresent {
          Resubscribe();
        }
      } else if ok {
        ResetTables();
        Unlock();
      }
      if ok {
        cleanSession := false;
        sessions := sessions + 1;
      }
    }

    ghost predicate AtHeadButConnected()
      reads this
    {
      && holder == AgentTask && !connectedBit && transport
      && (cleanSession <==> sessions == 0)
      && resets == (if sessions == 0 then 0 else 1)
    }

    /** One pass of the outer loop. It gets stuck if and only if an earlier session is
        resumed, the broker still had it and a publish arrives; otherwise the head condition
        holds again. */
    method Pass(answers: Answers) returns (stuck: bool)
      requires AtHead() && !exit
      modifies this
      ensures stuck <==> Sticks(answers, old(sessions))
      ensures !stuck ==> AtHead() && (exit <==> !Connects(answers) || !answers.retry)
      ensures stuck ==> holder == AgentTask && connectedBit && transport
      ensures sessions == old(sessions) +
              if Establishes(answers, old(sessions)) then 1 else 0
      ensures (cleanSession <==> sessions == 0) && resets == (if sessions == 0 then 0 else 1)
    {
      stuck := false;
      for i := 0 to |answers.attempts|
        invariant AtHead() && !exit && sessions == old(sessions)
        invariant true !in answers.attempts[..i]
      {
        transport := answers.attempts[i];  // mbedtls_transport_connect
        if transport {
          break;
        }
      }
      var ok := false;
      if transport {
        ok := StartSession(answers);
      } else {
        exit := true;  // retries exhausted
      }
      if ok {
        connectedBit := true;
        stuck := CommandLoop(answers.publish);
        if stuck {
          return;
        }
      }
      transport := false;
      connectedBit := false;
      if holder != AgentTask {
        OtherTasks();
        Lock();
      }
      if !exit {
        exit := !answers.retry;
      }
    }

    /** Any run of the task: the head condition holds before every pass, and the tables are
        reset exactly once, by the first successful session. The task gets stuck if and only
        if it reaches a pass that sticks; otherwise it goes on as long as it may. */
    method Run(answers: seq<Answers>) returns (stuck: bool, passes: nat)
      requires AtHead() && !exit
      modifies this
      ensures stuck <==> exists i :: 0 <= i < |answers| && SticksAt(answers, old(sessions), i)
      ensures passes <= |answers| && sessions == SessionsAfter(answers[..passes], old(sessions))
      ensures stuck ==> passes > 0 && SticksAt(answers, old(sessions), passes - 1)
      ensures !stuck ==> AtHead()
      ensures !stuck && passes < |answers| ==>
                exit && passes > 0 && (!Connects(answers[passes - 1]) || !answers[passes - 1].retry)
      ensures resets == (if sessions == 0 then 0 else 1) && (cleanSession <==> sessions == 0)
    {
      hide SessionsAfter, Sticks, Establishes, Connects;
      stuck, passes := false, 0;
      assert SessionsAfter(answers[..0], sessions) == sessions by { assert answers[..0] == []; NoPasses(sessions); }
      while passes < |answers| && !exit
        invariant passes <= |answers| && AtHead()
        invariant sessions == SessionsAfter(answers[..passes], old(sessions))
        invariant forall j :: 0 <= j < passes ==> !Sticks(answers[j], SessionsAfter(answers[..j], old(sessions)))
        invariant forall j :: 0 <= j < passes - 1 ==> GoesOn(answers[j], SessionsAfter(answers[..j], old(sessions)))
        invariant passes > 0 ==> (exit <==> !Connects(answers[passes - 1]) || !answers[passes - 1].retry)
        invariant passes == 0 ==> !exit
      {
        SessionsStep(answers, old(sessions), passes);
        stuck := Pass(answers[passes]);
        passes := passes + 1;
        if stuck {
          assert SticksAt(answers, old(sessions), passes - 1);
          return;
        }
      }
      NeverSticks(answers, old(sessions), passes);
    }
  }
}
