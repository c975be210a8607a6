/** The delta handler of the shadow demo: which delta message decides the device state. */
module Shadow {
  import opened Basics

  /** What the JSON library finds in a payload: no valid document or version, or a version
      and perhaps a `state.powerOn`. */
  datatype Message = Unusable | Delta(version: nat, powerOn: Option<nat>)

  datatype DeviceState = DeviceState(version: nat, power: nat, led: bool)

  /** One call of the handler. */
  function Next(s: DeviceState, m: Message): DeviceState {
    if m.Unusable? || m.version <= s.version then s
    else if m.powerOn.None? then s.(version := m.version)
    else DeviceState(m.version, m.powerOn.value, m.powerOn.value == 1)
  }

  function After(s: DeviceState, ms: seq<Message>): DeviceState {
    if ms == [] then s else Next(After(s, ms[..|ms| - 1]), ms[|ms| - 1])
  }

  class Device {
    var version: nat  // ulCurrentVersion
    var power: nat    // ulCurrentPowerOnState
    var led: bool

    function State(): DeviceState
      reads this
    {
      DeviceState(version, power, led)
    }

    constructor (power: nat, led: bool)
      ensures State() == DeviceState(0, power, led)
    {
      version, this.power, this.led := 0, power, led;
    }

    /** prvIncomingPublishUpdateDeltaCallback */
    method HandleDelta(m: Message)
      modifies this
      ensures State() == Next(old(State()), m)
    {
      if m.Delta? {
        if m.version > version {
          version := m.version;
          if m.powerOn.Some? {
            power := m.powerOn.value;
            if power == 1 {
              led := true;
            } else {
              led := false;
            }
          }
        }
      }
    }
  }

  // ---------------------------------------------------------------------------
  // Convergence
  // ---------------------------------------------------------------------------

  /** `top` has the highest version, and all messages of that version say the same. */
  ghost predicate IsNewest(top: Message, ms: seq<Message>) {
    && top in ms && top.Delta? && top.version > 0
    && forall m :: m in ms && m.Delta? ==> m.version < top.version || m == top
  }

  /** What a message that carries `powerOn` asks for. */
  function Wanted(m: Message): DeviceState
    requires m.Delta? && m.powerOn.Some?
  {
    DeviceState(m.version, m.powerOn.value, m.powerOn.value == 1)
  }

  lemma {:induction false} VersionBelow(start: DeviceState, ms: seq<Message>, v: nat)
    requires start.version < v && forall m :: m in ms && m.Delta? ==> m.version < v
    ensures After(start, ms).version < v
  {
    if ms != [] {
      var n := |ms| - 1;
      assert ms[n] in ms && forall m :: m in ms[..n] ==> m in ms;
      VersionBelow(start, ms[..n], v);
    }
  }

  /** After any messages, in any order and with any repetition, the version is the highest
      one; if its message carries the power state, that message alone decides. */
  lemma {:induction false} NewestDecides(start: DeviceState, ms: seq<Message>, top: Message)
    requires start.version == 0 && IsNewest(top, ms)
    ensures After(start, ms).version == top.version
    ensures top.powerOn.Some? ==> After(start, ms) == Wanted(top)
  {
    var n := |ms| - 1;
    var before, last := ms[..n], ms[n];
    assert last in ms && forall m :: m in before ==> m in ms;
    assert forall m :: m in ms ==> m in before || m == last;
    if top in before {
      NewestDecides(start, before, top);
    } else {
      VersionBelow(start, before, top.version);
    }
  }

  /** Two arrival orders of the same messages, with whatever repetitions, end alike if the
      newest message carries the power state. */
  lemma OrderIrrelevant(start: DeviceState, ms: seq<Message>, ns: seq<Message>, top: Message)
    requires start.version == 0 && IsNewest(top, ms) && top.powerOn.Some?
    requires forall m :: m in ms <==> m in ns
    ensures After(start, ms) == After(start, ns) == Wanted(top)
  {
    NewestDecides(start, ms, top);
    NewestDecides(start, ns, top);
  }

  lemma {:induction false} NothingNewer(s: DeviceState, ms: seq<Message>)
    requires forall m :: m in ms && m.Delta? ==> m.version <= s.version
    ensures After(s, ms) == s
  {
    if ms != [] {
      var n := |ms| - 1;
      assert ms[n] in ms && forall m :: m in ms[..n] ==> m in ms;
      NothingNewer(s, ms[..n]);
    }
  }

  lemma {:induction false} AfterAppend(s: DeviceState, a: seq<Message>, b: seq<Message>)
    ensures After(s, a + b) == After(After(s, a), b)
  {
    if b == [] {
      assert a + b == a;
    } else {
      assert (a + b)[..|a + b| - 1] == a + b[..|b| - 1];
      AfterAppend(s, a, b[..|b| - 1]);
    }
  }

  /** Otherwise one older message that asks for a change makes the order matter: the newest,
      arriving first, shuts the older one out. */
  lemma OrderMatters(start: DeviceState, ms: seq<Message>, top: Message, older: Message)
    requires start.version == 0 && IsNewest(top, ms) && top.powerOn.None?
    requires older in ms && AsksForChange(start, older)
    ensures After(start, [top] + ms) == start.(version := top.version)
    ensures After(start, [older, top] + ms) == Wanted(older).(version := top.version)
    ensures After(start, [top] + ms) != After(start, [older, top] + ms)
  {
    assert [top][..0] == [] && [older, top][..1] == [older] && [older][..0] == [];
    AfterAppend(start, [top], ms);
    AfterAppend(start, [older, top], ms);
    assert After(start, [top]) == Next(start, top);
    assert After(start, [older]) == Next(start, older);
    assert After(start, [older, top]) == Next(Next(start, older), top);
    NothingNewer(Next(start, top), ms);
    NothingNewer(Next(Next(start, older), top), ms);
  }

  /** The message, taken first, would change the power state or the LED. */
  predicate AsksForChange(start: DeviceState, m: Message) {
    m.Delta? && m.version > 0 && m.powerOn.Some? && Wanted(m) != start.(version := m.version)
  }

  /** `ns` is another arrival order of the messages `ms`, with whatever repetitions. */
  ghost predicate SameMessages(ms: seq<Message>, ns: seq<Message>) {
    forall m :: m in ms <==> m in ns
  }

  ghost predicate OrderFree(start: DeviceState, ms: seq<Message>) {
    forall ns :: SameMessages(ms, ns) ==> After(start, ns) == After(start, ms)
  }

  /** Messages that ask for nothing new change the version only. */
  lemma {:induction false} NothingAsked(start: DeviceState, ms: seq<Message>)
    requires start.version == 0 && forall m :: m in ms ==> !AsksForChange(start, m)
    ensures After(start, ms) == start.(version := After(start, ms).version)
  {
    if ms != [] {
      var n := |ms| - 1;
      assert ms[n] in ms && forall m :: m in ms[..n] ==> m in ms;
      NothingAsked(start, ms[..n]);
    }
  }

  /** All arrival orders end alike if and only if the newest message carries a power state
      or no message asks for a change. */
  lemma OrderFreeIff(start: DeviceState, ms: seq<Message>, top: Message)
    requires start.version == 0 && IsNewest(top, ms)
    ensures OrderFree(start, ms) <==> top.powerOn.Some? || forall m :: m in ms ==> !AsksForChange(start, m)
  {
    if top.powerOn.Some? {
      forall ns | SameMessages(ms, ns)
        ensures After(start, ns) == After(start, ms)
      {
        OrderIrrelevant(start, ms, ns, top);
      }
    } else if older :| older in ms && AsksForChange(start, older) {
      OrderMatters(start, ms, top, older);
      assert SameMessages(ms, [top] + ms) && SameMessages(ms, [older, top] + ms);
    } else {
      forall ns | SameMessages(ms, ns)
        ensures After(start, ns) == After(start, ms)
      {
        NewestDecides(start, ms, top);
        NewestDecides(start, ns, top);
        NothingAsked(start, ms);
        NothingAsked(start, ns);
      }
    }
  }

  /** Accepted versions strictly increase along every run. */
  lemma {:induction false} VersionsIncrease(start: DeviceState, ms: seq<Message>, i: nat, j: nat)
    requires i <= j <= |ms|
    ensures After(start, ms[..i]).version <= After(start, ms[..j]).version
    ensures After(start, ms[..i]).version == After(start, ms[..j]).version ==> After(start, ms[..i]) == After(start, ms[..j])
  {
    if i < j {
      assert ms[..j][..j - 1] == ms[..j - 1];
      VersionsIncrease(start, ms, i, j - 1);
    }
  }
}
