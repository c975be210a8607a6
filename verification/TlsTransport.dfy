/** The TLS transport context: its connection state, its socket and the task that watches
    the socket, over every sequence of calls and failures. */
module TlsTransport {
  import opened Basics

  datatype ConnectionState = Allocated | Configured | Connected

  datatype Status = Success | Failure

  /** An entry of the list that the address lookup returns, and what comes of it: whether
      the stack has a socket for it and whether that connects. */
  datatype Address = Address(supported: bool, opens: bool, connects: bool)

  /** Some address connects, and no earlier supported one lacked a socket. */
  predicate Reaches(addresses: seq<Address>) {
    exists i ::
      && 0 <= i < |addresses| && addresses[i] == Address(true, true, true)
      && forall j :: 0 <= j < i && addresses[j].supported ==> addresses[j].opens
  }

  /** Everything that a connect depends on: its arguments, the host name, the lookup, the
      addresses, and the socket options with the TLS handshake. */
  datatype Answers = Answers(arguments: bool, hostname: bool, resolved: bool, addresses: seq<Address>, handshake: bool)

  predicate Connects(a: Answers) {
    a.arguments && a.hostname && a.resolved && Reaches(a.addresses) && a.handshake
  }

  /** What the TLS library reports for a read or a write. */
  datatype Io = Bytes(n: nat) | Retry | Closed | OtherError(code: Negative)

  type Negative = n: int | n < 0 witness -1

  const NO_SOCKET := -1

  // ---------------------------------------------------------------------------
  // Calls as steps
  // ---------------------------------------------------------------------------

  /** What the notify task watches: nothing, the socket of the context, or one that the
      context no longer has. */
  datatype Watch = Unwatched | WatchesOwn | WatchesOther

  /** A context without the numbers of its sockets. */
  datatype View = View(
    state: ConnectionState, socket: bool, hasNotify: bool, hasCallback: bool, watch: Watch, orphan: bool)

  /** One call with everything it depends on; `garbage` is what the callback field of a new
      notify context happens to hold. A notify task may also end by itself. */
  datatype Call =
    | ConfigureCall(argumentsOk: bool, loaded: bool)
    | ConnectCall(answers: Answers)
    | TransferCall(io: Io)
    | DisconnectCall
    | CallbackCall(callback: bool, memory: bool, garbage: bool)
    | TaskEnds

  function Disconnected(v: View): View {
    v.(state := if v.state == Connected then Configured else v.state, socket := false, watch := Unwatched)
  }

  function Next(v: View, call: Call): View {
    match call
    case ConfigureCall(argumentsOk, loaded) =>
      var w := if v.state == Connected then Disconnected(v) else v;
      if argumentsOk && loaded then w.(state := Configured) else w
    case ConnectCall(a) =>
      if Connects(a) then
        v.(state := Connected, socket := true, watch := if v.hasNotify && v.hasCallback then WatchesOwn else Unwatched)
      else
        v.(socket := false, watch := if v.watch == Unwatched then Unwatched else WatchesOther)
    case TransferCall(io) =>
      if v.state != Connected || io != Closed then v
      else if v.socket then Disconnected(v) else v.(state := Configured)
    case DisconnectCall => Disconnected(v)
    case CallbackCall(callback, memory, garbage) =>
      if !memory && !(callback && v.hasNotify) then v
      else
        var w := if callback && v.hasNotify then v
                 else v.(hasNotify := true, hasCallback := garbage, watch := Unwatched,
                         orphan := v.orphan || v.watch != Unwatched);
        if !callback then w
        else if v.state != Connected then w.(hasCallback := true)
        else w.(hasCallback := true, watch := if v.socket then WatchesOwn else WatchesOther)
    case TaskEnds => v.(watch := Unwatched)
  }

  function After(v: View, calls: seq<Call>): View {
    if calls == [] then v else Next(After(v, calls[..|calls| - 1]), calls[|calls| - 1])
  }

  /** A connected context has a socket, and the only notify task watches no other. */
  predicate Sound(v: View) {
    && (v.state == Connected ==> v.socket)
    && (v.watch != Unwatched ==> v.state == Connected && v.watch == WatchesOwn && v.hasNotify)
    && !v.orphan
  }

  /** Exactly the calls that spoil a sound context: a connect that fails although there is a
      connection, and a NULL callback that replaces the context of a running task. */
  predicate Spoils(v: View, call: Call) {
    || (call.ConnectCall? && v.state == Connected && !Connects(call.answers))
    || (call.CallbackCall? && !call.callback && call.memory && v.watch != Unwatched)
  }

  /** A callback that was set stays set through every run without a NULL callback. */
  lemma {:induction false} CallbackLasts(v: View, calls: seq<Call>)
    requires v.hasNotify && v.hasCallback
    requires forall i :: 0 <= i < |calls| && calls[i].CallbackCall? ==> calls[i].callback
    ensures After(v, calls).hasNotify && After(v, calls).hasCallback
  {
    if calls != [] {
      CallbackLasts(v, calls[..|calls| - 1]);
    }
  }

  /** So once it was set, whatever happens in between, a connect that succeeds has its socket
      watched. */
  lemma CallbackThenConnect(v: View, memory: bool, garbage: bool, calls: seq<Call>, answers: Answers)
    requires (v.hasNotify || memory) && Connects(answers)
    requires forall i :: 0 <= i < |calls| && calls[i].CallbackCall? ==> calls[i].callback
    ensures var w := Next(After(Next(v, CallbackCall(true, memory, garbage)), calls), ConnectCall(answers));
            w.state == Connected && w.socket && w.watch == WatchesOwn
  {
    hide Connects;
    CallbackLasts(Next(v, CallbackCall(true, memory, garbage)), calls);
  }

  lemma SoundStep(v: View, call: Call)
    requires Sound(v)
    ensures Sound(Next(v, call)) <==> !Spoils(v, call)
  {
  }

  lemma AfterStep(v: View, calls: seq<Call>, i: nat)
    requires i < |calls|
    ensures After(v, calls[..i + 1]) == Next(After(v, calls[..i]), calls[i])
  {
    assert calls[..i + 1][..i] == calls[..i];
  }

  lemma {:induction false} SoundUpTo(v: View, calls: seq<Call>, i: nat)
    requires Sound(v) && i <= |calls|
    requires forall j :: 0 <= j < i ==> !Spoils(After(v, calls[..j]), calls[j])
    ensures Sound(After(v, calls[..i]))
  {
    hide Sound, Spoils, Next;
    if i > 0 {
      SoundUpTo(v, calls, i - 1);
      AfterStep(v, calls, i - 1);
      SoundStep(After(v, calls[..i - 1]), calls[i - 1]);
    }
  }

  /** A context stays sound throughout a run if and only if no call of the run spoils it. */
  lemma SoundThroughout(v: View, calls: seq<Call>)
    requires Sound(v)
    ensures (forall i :: 0 <= i <= |calls| ==> Sound(After(v, calls[..i]))) <==>
            forall i :: 0 <= i < |calls| ==> !Spoils(After(v, calls[..i]), calls[i])
  {
    hide Sound, Spoils, Next, After;
    if forall i :: 0 <= i < |calls| ==> !Spoils(After(v, calls[..i]), calls[i]) {
      forall i | 0 <= i <= |calls|
        ensures Sound(After(v, calls[..i]))
      {
        SoundUpTo(v, calls, i);
      }
    } else {
      var i :| 0 <= i < |calls| && Spoils(After(v, calls[..i]), calls[i]);
      AfterStep(v, calls, i);
      if Sound(After(v, calls[..i])) {
        SoundStep(After(v, calls[..i]), calls[i]);
        assert !Sound(After(v, calls[..i + 1]));
      }
    }
  }

  class Context {
    var state: ConnectionState
    var sock: int            // xSockHandle
    var hasNotify: bool      // pxNotifyThreadCtx != NULL
    var hasCallback: bool    // its pxRecvReadyCallback != NULL
    var watched: Option<int> // handle that the running notify task watches, if there is one
    var orphan: bool         // a notify task runs whose context was overwritten
    var open: set<int>       // sockets obtained from the stack and not yet closed

    /** Sockets are owned: the open ones are exactly the stored handle, if there is one. */
    ghost predicate Owned()
      reads this
    {
      && (forall s :: s in open ==> s >= 0)
      && open == (if sock >= 0 then {sock} else {})
      && (watched.Some? ==> hasNotify)
    }

    ghost function Now(): View
      reads this
    {
      View(state, sock >= 0, hasNotify, hasCallback,
           if watched.None? then Unwatched else if sock >= 0 && watched == Some(sock) then WatchesOwn else WatchesOther, orphan)
    }

    ghost predicate Usable()
      reads this
    {
      Sound(Now())
    }

    /** mbedtls_transport_allocate */
    constructor ()
      ensures Owned() && Usable() && state == Allocated && open == {} && sock == -1
    {
      state, sock, hasNotify, hasCallback := Allocated, NO_SOCKET, false, false;
      watched, orphan, open := None, false, {};
    }

    /** sock_socket: a new descriptor, or a negative number. */
    method OpenSocket(opens: bool) returns (s: int)
      requires forall s :: s in open ==> s == sock
      modifies this`open
      ensures s >= 0 <==> opens
      ensures open == if opens then old(open) + {s} else old(open)
      ensures opens ==> s !in old(open)
    {
      s := NO_SOCKET;
      if opens {
        assert (if sock < 0 then 0 else sock + 1) !in open;
        s :| s >= 0 && s !in open;
        open := open + {s};
      }
    }

    /** sock_close: only of a descriptor that is open. */
    method CloseSocket(s: int)
      requires s in open
      modifies this`open
      ensures open == old(open) - {s}
    {
      open := open - {s};
    }

    /** vStopSocketNotifyTask */
    method StopNotify()
      modifies this`watched
      ensures watched == None
    {
      watched := None;
    }

    /** vCreateSocketNotifyTask; it does nothing without a callback. */
    method StartNotify()
      modifies this`watched
      ensures watched == if hasCallback then Some(sock) else None
    {
      StopNotify();
      if hasCallback {
        watched := Some(sock);
      }
    }

    /** xConnectSocket: an old socket is closed first; every address is tried until one
        connects or the stack has no socket left. */
    method ConnectSocket(resolved: bool, addresses: seq<Address>) returns (status: Status)
      requires Owned()
      modifies this`sock, this`open
      ensures Owned() && (status == Success <==> sock >= 0)
      ensures status == Success <==> resolved && Reaches(addresses)
    {
      status := Success;
      if sock >= 0 {
        CloseSocket(sock);
        sock := NO_SOCKET;
      }
      if !resolved || addresses == [] {
        return Failure;
      }
      for i := 0 to |addresses|
        invariant Owned() && sock < 0 && status == Success
        invariant forall j :: 0 <= j < i && addresses[j].supported ==> addresses[j].opens && !addresses[j].connects
      {
        if addresses[i].supported {
          sock := OpenSocket(addresses[i].opens);
          if sock < 0 {
            status := Failure;
          } else if !addresses[i].connects {
            CloseSocket(sock);
            sock := NO_SOCKET;
          }
          if status != Success || sock >= 0 {
            break;
          }
        }
      }
      if status == Success && sock < 0 {
        status := Failure;
      }
    }

    /** mbedtls_transport_connect. A failure closes the socket and leaves the state alone,
        so it keeps the context usable if and only if the context was not connected. The
        session reset after a failure gets a NULL pointer if the arguments were refused. */
    method Connect(a: Answers) returns (status: Status, nullReset: bool)
      requires Owned()
      modifies this
      ensures Owned() && hasNotify == old(hasNotify) && hasCallback == old(hasCallback) && orphan == old(orphan)
      ensures status == Success <==> Connects(a)
      ensures nullReset <==> !a.arguments
      ensures Now() == Next(old(Now()), ConnectCall(a))
      ensures status == Success ==> state == Connected && sock >= 0 && (hasNotify && hasCallback ==> watched == Some(sock))
      ensures status == Success && old(Usable()) ==> Usable()
      ensures status == Failure ==> state == old(state) && sock < 0 && open == {} && watched == old(watched)
      ensures status == Failure && old(Usable()) ==> (Usable() <==> old(state) != Connected)
    {
      hide Reaches;
      nullReset := false;
      status := if a.arguments && a.hostname then Success else Failure;
      if status == Success {
        status := ConnectSocket(a.resolved, a.addresses);
      }
      if status == Success && !a.handshake {
        status := Failure;
      }
      if status == Success {
        if hasNotify {
          StartNotify();
        }
        state := Connected;
      } else {
        if sock >= 0 {
          CloseSocket(sock);
          sock := NO_SOCKET;
        }
        nullReset := !a.arguments;
      }
    }

    /** mbedtls_transport_disconnect */
    method Disconnect()
      requires Owned()
      modifies this
      ensures Owned() && (Usable() <==> !old(orphan)) && sock < 0 && open == {} && watched == None
      ensures old(sock) >= 0 ==> sock == -1
      ensures state == if old(state) == Connected then Configured else old(state)
      ensures hasNotify == old(hasNotify) && Now() == Next(old(Now()), DisconnectCall)
    {
      if state == Connected {
        state := Configured;
      }
      if hasNotify {
        StopNotify();
      }
      if sock >= 0 {
        CloseSocket(sock);
        sock := NO_SOCKET;
      }
    }

    /** mbedtls_transport_configure: an open connection is closed first, even if the
        arguments turn out to be invalid. */
    method Configure(argumentsOk: bool, loaded: bool) returns (status: Status)
      requires Owned()
      modifies this
      ensures Owned() && state != Connected && hasNotify == old(hasNotify)
      ensures status == Success <==> argumentsOk && loaded
      ensures Now() == Next(old(Now()), ConfigureCall(argumentsOk, loaded))
      ensures status == Success ==> state == Configured
      ensures status == Failure ==> state == if old(state) == Connected then Configured else old(state)
      ensures old(state) == Connected ==> open == {}
      ensures old(Usable()) ==> Usable()
    {
      status := if argumentsOk then Success else Failure;
      if state == Connected {
        Disconnect();
      }
      if status == Success {
        if loaded {  // keys, certificates, library contexts
          state := Configured;
        } else {
          status := Failure;
        }
      }
    }

    /** mbedtls_transport_recv and mbedtls_transport_send: a closed or reset connection
        gives its socket back. */
    method Transfer(io: Io) returns (result: int)
      requires Owned()
      modifies this
      ensures Owned() && hasNotify == old(hasNotify)
      ensures Now() == Next(old(Now()), TransferCall(io))
      ensures old(Usable()) ==> Usable()
      ensures old(state) != Connected ==> result == 0 && state == old(state) && sock == old(sock)
      ensures old(state) == Connected && io == Closed ==> result == -1 && state == Configured && open == {}
      ensures old(state) == Connected && io != Closed ==> state == Connected && sock == old(sock)
      ensures old(state) == Connected && io.Bytes? ==> result == io.n
      ensures old(state) == Connected && io == Retry ==> result == 0
      ensures old(state) == Connected && io.OtherError? ==> result == io.code && open == old(open)
      ensures result < 0 <==> old(state) == Connected && (io == Closed || io.OtherError?)
    {
      result := 0;
      if state == Connected {
        match io
        case Bytes(n) => result := n;
        case Retry => result := 0;
        case OtherError(code) => result := code;
        case Closed =>
          result := -1;
          state := Configured;
          if sock >= 0 {
            if hasNotify {
              StopNotify();
            }
            CloseSocket(sock);
            sock := NO_SOCKET;
          }
      }
    }

    /** mbedtls_transport_setrecvcallback on a context that exists. A NULL callback is refused,
        but not before the notify context is replaced by a new one: a task that was running
        goes on, and nobody can stop it any more. */
    method SetRecvCallback(callback: bool, memory: bool, garbage: bool) returns (ok: bool)
      requires Owned()
      modifies this`hasNotify, this`hasCallback, this`watched, this`orphan
      ensures Owned() && (hasNotify <==> old(hasNotify) || memory)
      ensures ok <==> callback && (old(hasNotify) || memory)
      ensures ok && state == Connected ==> watched == Some(sock)
      ensures Now() == Next(old(Now()), CallbackCall(callback, memory, garbage))
      ensures orphan <==> old(orphan) || (!callback && memory && old(watched).Some?)
      ensures old(Usable()) ==> (Usable() <==> callback || !memory || old(watched).None?)
    {
      ok := callback;
      if !callback || !hasNotify {
        if memory {
          if watched.Some? {
            orphan, watched := true, None;
          }
          hasNotify := true;
          hasCallback := garbage;  // not initialised
        } else {
          ok := false;
        }
      } else if state == Connected && watched.Some? {
        StopNotify();
      }
      if ok {
        hasCallback := true;
        if state == Connected {
          StartNotify();
        }
      }
    }

    /** mbedtls_transport_free */
    method Free()
      requires Owned()
      modifies this
      ensures open == {} && watched == None
    {
      if hasNotify {
        StopNotify();
      }
      if sock >= 0 {
        CloseSocket(sock);
      }
    }

    /** Any run of the interface does what its calls say, and the open sockets are always
        exactly the stored one. The context stays usable if no call of the run spoils it. */
    method AnyCalls(calls: seq<Call>)
      requires Owned()
      modifies this
      ensures Owned() && Now() == After(old(Now()), calls)
      ensures old(Usable()) && (forall i :: 0 <= i < |calls| ==> !Spoils(After(old(Now()), calls[..i]), calls[i])) ==> Usable()
    {
      hide Next, Sound, Spoils;
      ghost var v := Now();
      for n := 0 to |calls|
        invariant Owned() && Now() == After(v, calls[..n])
      {
        match calls[n] {
          case ConfigureCall(argumentsOk, loaded) => var _ := Configure(argumentsOk, loaded);
          case ConnectCall(answers) => var _, _ := Connect(answers);
          case TransferCall(io) => var _ := Transfer(io);
          case DisconnectCall => Disconnect();
          case CallbackCall(callback, memory, garbage) => var _ := SetRecvCallback(callback, memory, garbage);
          case TaskEnds => TaskEnd();
        }
        assert calls[..n + 1][..n] == calls[..n];
      }
      assert calls[..|calls|] == calls;
      if Sound(v) {
        SoundThroughout(v, calls);
        assert calls[..|calls|] == calls;
      }
    }

    /** The notify task ends by itself. */
    method TaskEnd()
      requires Owned()
      modifies this`watched
      ensures Owned() && Now() == Next(old(Now()), TaskEnds)
    {
      watched := None;
    }

    /** A whole life of a context: whatever happens in between, freeing it leaves no socket
        open, and no socket is ever closed twice. */
    method AnyRun(calls: seq<Call>)
      requires Owned()
      modifies this
      ensures open == {} && watched == None
    {
      AnyCalls(calls);
      Free();
    }
  }
}
