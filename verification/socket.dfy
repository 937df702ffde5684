/**
 * The browser side of the `/ws` channel (`ChatSocket`): one socket reference, a registry
 * from event name to the callbacks listening for it, and a flag that guards `connect`.
 */
module Socket {
  import opened Schema
  import opened Seqs
  import opened Protocol

  /** A registered callback, by identity: `indexOf` compares functions by reference. */
  type Callback = nat

  /** `WebSocket.readyState`. */
  datatype ReadyState = Connecting | Open | Closing | Closed

  /** How the promise returned by `connect` settles, or that it is still waiting for the socket. */
  datatype ConnectOutcome = Resolved | Rejected(reason: string) | Pending

  const AlreadyConnecting: string := "Already connecting"

  /** The `type` of the frame the close handler dispatches locally. */
  const DisconnectedEvent: string := "disconnected"

  /** `listeners.get(event) || []`. */
  function ListenersOf(listeners: map<string, seq<Callback>>, event: string): seq<Callback>
  {
    if event in listeners then listeners[event] else []
  }

  /** The client's state: the socket (absent once `ws` is `null`), the registry and `isConnecting`. */
  datatype Client = Client(ws: Option<ReadyState>, listeners: map<string, seq<Callback>>, isConnecting: bool)
  {
    /** `isConnected`: there is a socket and it is open. */
    predicate IsConnected()
    {
      ws == Some(Open)
    }

    /** The callbacks `handleMessage` invokes for a frame of type `event`, in invocation order. */
    function Listeners(event: string): seq<Callback>
    {
      ListenersOf(listeners, event)
    }

    /** `connect`: resolve when open, reject while a connect is in flight, otherwise open a new socket. */
    function Connect(): Attempt
    {
      if IsConnected() then Attempt(this, Resolved)
      else if isConnecting then Attempt(this, Rejected(AlreadyConnecting))
      else Attempt(this.(ws := Some(Connecting), isConnecting := true), Pending)
    }

    /** The socket's `onopen`: the flag drops and (if the client still holds it) the socket is open. */
    function Opened(): Client
    {
      this.(isConnecting := false, ws := if ws.Some? then Some(Open) else None)
    }

    /**
     * The socket's `onerror` or `onclose`: the flag drops and the socket is done; the
     * `disconnected` dispatch of `onclose` is separate.
     */
    function Dropped(): Client
    {
      this.(isConnecting := false, ws := if ws.Some? then Some(Closed) else None)
    }

    /** `on(event, callback)`: the callback goes to the end of the event's list, created if absent. */
    function On(event: string, callback: Callback): Client
    {
      this.(listeners := listeners[event := ListenersOf(listeners, event) + [callback]])
    }

    /** `off(event, callback)`: the first registration of the callback, if any, is spliced out. */
    function Off(event: string, callback: Callback): Client
    {
      if event in listeners then this.(listeners := listeners[event := RemoveFirst(listeners[event], callback)])
      else this
    }

    /** `disconnect`: the socket reference is dropped and the registry cleared. */
    function Disconnected(): Client
    {
      this.(ws := None, listeners := map[])
    }
  }

  /** The state after `connect` and how its promise stands. */
  datatype Attempt = Attempt(next: Client, outcome: ConnectOutcome)

  /** `on` appends to its own event's list and leaves every other event and the socket alone. */
  lemma OnAppends(c: Client, event: string, callback: Callback)
    ensures c.On(event, callback).Listeners(event) == c.Listeners(event) + [callback]
    ensures forall e :: e != event ==> c.On(event, callback).Listeners(e) == c.Listeners(e)
    ensures c.On(event, callback).ws == c.ws && c.On(event, callback).isConnecting == c.isConnecting
  {
  }

  /**
   * `off` drops only the first registration of the callback and keeps the order of the rest;
   * for an unregistered callback or an unknown event it changes nothing at all.
   */
  lemma OffRemovesFirst(c: Client, event: string, callback: Callback)
    ensures var l := c.Listeners(event);
            var l' := c.Off(event, callback).Listeners(event);
            && (callback in l ==> exists i :: 0 <= i < |l| && l[i] == callback && callback !in l[..i]
                                              && l' == l[..i] + l[i + 1..])
            && (callback !in l ==> c.Off(event, callback) == c)
    ensures forall e :: e != event ==> c.Off(event, callback).Listeners(e) == c.Listeners(e)
    ensures c.Off(event, callback).ws == c.ws && c.Off(event, callback).isConnecting == c.isConnecting
  {
    var l := c.Listeners(event);
    if callback in l {
      var i := IndexOf(l, callback);
      assert event in c.listeners && l == c.listeners[event];
      assert RemoveFirst(l, callback) == l[..i] + l[i + 1..];
      assert c.Off(event, callback).Listeners(event) == l[..i] + l[i + 1..];
    } else if event in c.listeners {
      assert c.listeners[event := c.listeners[event]] == c.listeners;
    }
  }

  /** Registering a new callback and removing it again leaves every event's list as it was. */
  lemma OffUndoesOn(c: Client, event: string, callback: Callback)
    requires callback !in c.Listeners(event)
    ensures forall e :: c.On(event, callback).Off(event, callback).Listeners(e) == c.Listeners(e)
  {
    RemoveFirstUndoesAppend(c.Listeners(event), callback);
  }

  /** Of two registrations of the same callback, one `off` removes one: the other still fires. */
  lemma OffRemovesOneRegistration(c: Client, event: string, callback: Callback)
    requires callback !in c.Listeners(event)
    ensures c.On(event, callback).On(event, callback).Off(event, callback).Listeners(event)
            == c.Listeners(event) + [callback]
  {
    var l := c.Listeners(event);
    assert IndexOf(l + [callback] + [callback], callback) == |l|;
    assert (l + [callback] + [callback])[..|l|] == l;
    assert (l + [callback] + [callback])[|l| + 1..] == [callback];
  }

  /** After `disconnect` no frame type reaches any callback and the client is not connected. */
  lemma DisconnectSilences(c: Client, event: string)
    ensures c.Disconnected().Listeners(event) == [] && !c.Disconnected().IsConnected()
  {
  }

  /**
   * `connect` while the socket is open resolves and changes nothing; a connect that starts a
   * socket makes a second one fail with "Already connecting" until the socket opens, errs or
   * closes, after which a connect resolves (open) or starts afresh (error, close).
   */
  lemma ConnectIsGuarded(c: Client)
    ensures c.IsConnected() ==> c.Connect() == Attempt(c, Resolved)
    ensures var a := c.Connect();
            a.outcome.Pending? ==>
              && a.next.isConnecting && !a.next.IsConnected()
              && a.next.Connect() == Attempt(a.next, Rejected(AlreadyConnecting))
              && a.next.Opened().Connect() == Attempt(a.next.Opened(), Resolved)
              && a.next.Dropped().Connect().outcome == Pending
    ensures c.Connect().outcome.Rejected? <==> !c.IsConnected() && c.isConnecting
  {
  }

  /** `ChatSocket`. */
  class ChatSocket {
    /** The socket's `readyState`, or absent when `ws` is `null`. */
    var ws: Option<ReadyState>
    var listeners: map<string, seq<Callback>>
    var isConnecting: bool

    function View(): Client
      reads this
    {
      Client(ws, listeners, isConnecting)
    }

    constructor ()
      ensures View() == Client(None, map[], false)
    {
      ws, listeners, isConnecting := None, map[], false;
    }

    /** `connect`; `window.location` and the `WebSocket` constructor are outside the model. */
    method Connect() returns (outcome: ConnectOutcome)
      modifies this
      ensures Attempt(View(), outcome) == old(View()).Connect()
    {
      if ws == Some(Open) {
        return Resolved;
      }
      if isConnecting {
        return Rejected(AlreadyConnecting);
      }
      isConnecting := true;
      ws := Some(Connecting);
      outcome := Pending;
    }

    /** `ws.onopen`. */
    method Opened()
      modifies this
      ensures View() == old(View()).Opened()
    {
      isConnecting := false;
      if ws.Some? {
        ws := Some(Open);
      }
    }

    /** `ws.onerror`. */
    method Errored()
      modifies this
      ensures View() == old(View()).Dropped()
    {
      isConnecting := false;
      if ws.Some? {
        ws := Some(Closed);
      }
    }

    /** `ws.onclose`: the flag drops and `{type: 'disconnected'}` is dispatched to its listeners. */
    method ClosedByPeer() returns (calls: seq<Callback>)
      modifies this
      ensures View() == old(View()).Dropped()
      ensures calls == old(View()).Listeners(DisconnectedEvent)
    {
      isConnecting := false;
      if ws.Some? {
        ws := Some(Closed);
      }
      calls := HandleMessage(DisconnectedEvent);
    }

    /** `handleMessage`: the callbacks invoked, one entry per invocation, in order. */
    method HandleMessage(event: string) returns (calls: seq<Callback>)
      ensures calls == View().Listeners(event)
      ensures event !in listeners ==> calls == []
    {
      var registered := ListenersOf(listeners, event);
      calls := [];
      var i := 0;
      while i < |registered|
        invariant 0 <= i <= |registered|
        invariant calls == registered[..i]
      {
        calls := calls + [registered[i]];
        i := i + 1;
      }
      assert registered[..i] == registered;
    }

    /** `on`. */
    method On(event: string, callback: Callback)
      modifies this
      ensures View() == old(View()).On(event, callback)
    {
      if event !in listeners {
        listeners := listeners[event := []];
      }
      listeners := listeners[event := listeners[event] + [callback]];
    }

    /** `off`: `indexOf`, then `splice(index, 1)` on the stored list when found. */
    method Off(event: string, callback: Callback)
      modifies this
      ensures View() == old(View()).Off(event, callback)
    {
      var registered := ListenersOf(listeners, event);
      var index := IndexOf(registered, callback);
      if index > -1 {
        listeners := listeners[event := registered[..index] + registered[index + 1..]];
      }
    }

    /** `send`: the frame that goes on the wire, or none when the socket is not open. */
    method Send(frame: ClientFrame) returns (sent: Option<ClientFrame>)
      ensures sent.Some? <==> View().IsConnected()
      ensures sent.Some? ==> sent.value == frame
    {
      if ws == Some(Open) {
        sent := Some(frame);
      } else {
        sent := None;
      }
    }

    /** `joinRoom`: a `join_room` frame for `roomId`. */
    method JoinRoom(roomId: string) returns (sent: Option<ClientFrame>)
      ensures sent == if View().IsConnected() then Some(ClientFrame.JoinRoom(roomId)) else None
    {
      sent := Send(ClientFrame.JoinRoom(roomId));
    }

    /** `sendMessage`: a `send_message` frame carrying `content`. */
    method SendMessage(content: string) returns (sent: Option<ClientFrame>)
      ensures sent == if View().IsConnected() then Some(ClientFrame.SendMessage(content)) else None
    {
      sent := Send(ClientFrame.SendMessage(content));
    }

    /** `disconnect`: `closeRequested` when there was a socket to close. */
    method Disconnect() returns (closeRequested: bool)
      modifies this
      ensures closeRequested == old(ws).Some?
      ensures View() == old(View()).Disconnected()
    {
      closeRequested := ws.Some?;
      ws := None;
      listeners := map[];
    }

    /** `isConnected`. */
    function IsConnected(): bool
      reads this
    {
      ws == Some(Open)
    }
  }
}
