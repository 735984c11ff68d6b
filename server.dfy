/** The process-wide `clients` Map of server.js and the handlers that the
    `connection` callback attaches to each socket, as one object whose
    methods update the Map in place. */
module Server {
  import opened Messages
  import opened Registry

  class Relay {
    /** The `clients` Map, in insertion order. */
    var clients: seq<Entry>

    ghost predicate Valid()
      reads this
    {
      DistinctIds(clients)
    }

    /** `new Map()` at start-up. */
    constructor ()
      ensures Valid() && clients == []
    {
      clients := [];
    }

    /** One `clients.forEach` broadcast loop: send `msg` to every entry whose
        id is not `except` and whose connection is open, in insertion order. */
    method Broadcast(except: Option<Key>, msg: OutMsg, open: set<Conn>) returns (sends: seq<Send>)
      ensures sends == Fanout(clients, except, open, msg)
    {
      sends := [];
      var i := 0;
      while i < |clients|
        invariant 0 <= i <= |clients|
        invariant sends == Fanout(clients[..i], except, open, msg)
      {
        var e := clients[i];
        if Eligible(e, except, open) {
          sends := sends + [Send(e.client.ws, msg)];
        }
        assert clients[..i + 1][..i] == clients[..i];
        i := i + 1;
      }
      assert clients[..i] == clients;
    }

    /** The scan of the close handler: `disconnectedId` starts as `null` and is
        overwritten by every entry whose connection is `ws`. */
    method FindByConn(ws: Conn) returns (disconnectedId: Option<Key>)
      ensures disconnectedId == LastMatch(clients, ws)
    {
      disconnectedId := None;
      var i := 0;
      while i < |clients|
        invariant 0 <= i <= |clients|
        invariant disconnectedId == LastMatch(clients[..i], ws)
      {
        if clients[i].client.ws == ws {
          disconnectedId := Some(clients[i].id);
        }
        assert clients[..i + 1][..i] == clients[..i];
        i := i + 1;
      }
      assert clients[..i] == clients;
    }

    /** A `touchUpdate` from connection `ws`: register on first sight, then
        forward the update to every other open client id, unless the log line
        of a new registration throws into the handler's `catch`. */
    method OnTouchUpdate(ws: Conn, id: Key, color: Json, touches: Json, open: set<Conn>)
      returns (sends: seq<Send>)
      requires Valid()
      modifies this
      ensures Valid()
      ensures Outcome(clients, sends) == HandleTouchUpdate(old(clients), ws, id, color, touches, open)
    {
      RegisterKeepsDistinct(clients, id, Client(ws, color));
      var isNew := !Has(clients, id);
      if isNew {
        clients := clients + [Entry(id, Client(ws, color))];
      }
      if isNew && RegistrationLogThrows(id, color) {
        sends := [];
      } else {
        sends := Broadcast(Some(id), TouchOut(id, color, touches), open);
      }
    }

    /** A `clearTouches`: forward it to every other open client id. It has no
        `modifies` clause: the registry cannot change. */
    method OnClearTouches(id: Key, open: set<Conn>) returns (sends: seq<Send>)
      ensures Outcome(clients, sends) == HandleClearTouches(clients, id, open)
    {
      sends := Broadcast(Some(id), ClearOut(id), open);
    }

    /** The `message` callback, after `JSON.parse`. */
    method OnMessage(ws: Conn, msg: Inbound, open: set<Conn>) returns (sends: seq<Send>)
      requires Valid()
      modifies this
      ensures Valid()
      ensures Outcome(clients, sends) == HandleMessage(old(clients), ws, msg, open)
    {
      match msg
      case TouchUpdate(id, color, touches) =>
        sends := OnTouchUpdate(ws, id, color, touches, open);
      case ClearTouches(id) =>
        sends := OnClearTouches(id, open);
      case Unrecognized =>
        sends := [];
      case Malformed =>
        sends := [];
    }

    /** The `close` callback of connection `ws`. */
    method OnClose(ws: Conn, open: set<Conn>) returns (sends: seq<Send>)
      requires Valid()
      modifies this
      ensures Valid()
      ensures Outcome(clients, sends) == HandleClose(old(clients), ws, open)
    {
      var disconnectedId := FindByConn(ws);
      sends := [];
      if disconnectedId.Some? && Truthy(disconnectedId.value) {
        RemoveKeepsDistinct(clients, disconnectedId.value);
        clients := Remove(clients, disconnectedId.value);
        sends := Broadcast(None, ClearOut(disconnectedId.value), open);
      }
    }
  }
}
