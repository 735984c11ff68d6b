/** The `clients` Map of the relay as a value: a sequence of entries in
    insertion order (the order `Map.forEach` visits them), and the effect of
    each event handler on it as a function of the old registry. */
module Registry {
  import opened Messages

  /** The value stored under a client id: `{ ws, color }`. */
  datatype Client = Client(ws: Conn, color: Json)

  /** One key/value pair of the Map. */
  datatype Entry = Entry(id: Key, client: Client)

  /** `clients.has(id)`: some entry is keyed `id`, so `id` is a key of the
      dictionary view. */
  predicate Has(es: seq<Entry>, id: Key)
    ensures Has(es, id) <==> id in AsMap(es)
  {
    HasIffInMap(es, id);
    exists i :: 0 <= i < |es| && es[i].id == id
  }

  /** A Map never holds a key twice. */
  ghost predicate DistinctIds(es: seq<Entry>)
  {
    forall i, j :: 0 <= i < j < |es| ==> es[i].id != es[j].id
  }

  /** The registry seen as a plain dictionary, forgetting the order. Under
      `DistinctIds` no key occurs twice; letting a later entry win only makes
      the function total on every sequence. */
  ghost function AsMap(es: seq<Entry>): map<Key, Client>
  {
    if es == [] then map[]
    else AsMap(es[..|es| - 1])[es[|es| - 1].id := es[|es| - 1].client]
  }

  /** `if (!clients.has(id)) clients.set(id, c)`: the first registration wins.
      Afterwards `id` is registered; existing entries keep their place, and at
      most the new entry for `id` follows them. */
  function Register(es: seq<Entry>, id: Key, c: Client): (r: seq<Entry>)
    ensures Has(r, id)
    ensures |es| <= |r| <= |es| + 1 && r[..|es|] == es
    ensures |r| == |es| + 1 ==> r[|es|] == Entry(id, c)
  {
    if Has(es, id) then es else es + [Entry(id, c)]
  }

  /** `clients.delete(id)`: every entry keyed `id` goes, the rest stay in order. */
  function Remove(es: seq<Entry>, id: Key): (r: seq<Entry>)
    ensures |r| <= |es|
  {
    if es == [] then []
    else
      var rest := Remove(es[..|es| - 1], id);
      if es[|es| - 1].id == id then rest else rest + [es[|es| - 1]]
  }

  /** The test a broadcast loop applies to each entry: its id differs from the
      excluded one (when there is one) and its connection is open. */
  predicate Eligible(e: Entry, except: Option<Key>, open: set<Conn>)
  {
    (except.None? || e.id != except.value) && e.client.ws in open
  }

  /** The entries a broadcast writes to, in the order it visits them. */
  function Recipients(es: seq<Entry>, except: Option<Key>, open: set<Conn>): (r: seq<Entry>)
    ensures |r| <= |es|
  {
    if es == [] then []
    else
      var rest := Recipients(es[..|es| - 1], except, open);
      if Eligible(es[|es| - 1], except, open) then rest + [es[|es| - 1]] else rest
  }

  /** The sends of one broadcast of `msg`: one per recipient, in visiting order. */
  function Fanout(es: seq<Entry>, except: Option<Key>, open: set<Conn>, msg: OutMsg): (sends: seq<Send>)
    ensures |sends| == |Recipients(es, except, open)|
    ensures forall k :: 0 <= k < |sends| ==>
              sends[k] == Send(Recipients(es, except, open)[k].client.ws, msg)
  {
    if es == [] then []
    else
      var rest := Fanout(es[..|es| - 1], except, open, msg);
      if Eligible(es[|es| - 1], except, open) then rest + [Send(es[|es| - 1].client.ws, msg)]
      else rest
  }

  /** The value `disconnectedId` holds after the scan of the close handler:
      the id of the LAST entry whose connection is `ws`, or `null` (None). */
  function LastMatch(es: seq<Entry>, ws: Conn): (found: Option<Key>)
    ensures found.Some? ==>
              exists i :: 0 <= i < |es| && es[i].client.ws == ws && es[i].id == found.value
    ensures found.None? ==> forall i :: 0 <= i < |es| ==> es[i].client.ws != ws
  {
    if es == [] then None
    else if es[|es| - 1].client.ws == ws then Some(es[|es| - 1].id)
    else LastMatch(es[..|es| - 1], ws)
  }

  /** What one event handler leaves behind: the new registry and its sends. */
  datatype Outcome = Outcome(registry: seq<Entry>, sends: seq<Send>)

  /** The `touchUpdate` branch of the message handler. When the id is new,
      the log line that follows `clients.set` may throw; the `catch` then ends
      the handler after the registration and before any send. Afterwards the
      sender's id is registered, and every send is the inbound update. */
  function HandleTouchUpdate(es: seq<Entry>, ws: Conn, id: Key, color: Json, touches: Json,
                             open: set<Conn>): (o: Outcome)
    ensures Has(o.registry, id)
    ensures forall k :: 0 <= k < |o.sends| ==> o.sends[k].msg == TouchOut(id, color, touches)
  {
    var r := Register(es, id, Client(ws, color));
    if !Has(es, id) && RegistrationLogThrows(id, color) then Outcome(r, [])
    else Outcome(r, Fanout(r, Some(id), open, TouchOut(id, color, touches)))
  }

  /** The `clearTouches` branch of the message handler: the registry stays as
      it is and every send is a `clearTouches` for the sender's id. */
  function HandleClearTouches(es: seq<Entry>, id: Key, open: set<Conn>): (o: Outcome)
    ensures o.registry == es
    ensures forall k :: 0 <= k < |o.sends| ==> o.sends[k].msg == ClearOut(id)
  {
    Outcome(es, Fanout(es, Some(id), open, ClearOut(id)))
  }

  /** The whole message handler, including the ignored and the caught cases.
      A message never removes an entry: the registry is unchanged, or a
      `touchUpdate` appended the sender's new entry. */
  function HandleMessage(es: seq<Entry>, ws: Conn, msg: Inbound, open: set<Conn>): (o: Outcome)
    ensures o.registry == es ||
            (msg.TouchUpdate? && o.registry == es + [Entry(msg.clientId, Client(ws, msg.color))])
  {
    match msg
    case TouchUpdate(id, color, touches) => HandleTouchUpdate(es, ws, id, color, touches, open)
    case ClearTouches(id) => HandleClearTouches(es, id, open)
    case Unrecognized => Outcome(es, [])
    case Malformed => Outcome(es, [])
  }

  /** The close handler. It never adds an entry; it changes the registry
      only when the scan found a truthy id, and every send is a `clearTouches`
      for that id. */
  function HandleClose(es: seq<Entry>, ws: Conn, open: set<Conn>): (o: Outcome)
    ensures |o.registry| <= |es|
    ensures o.registry != es ==> LastMatch(es, ws).Some? && Truthy(LastMatch(es, ws).value)
    ensures forall k :: 0 <= k < |o.sends| ==>
              LastMatch(es, ws).Some? && o.sends[k].msg == ClearOut(LastMatch(es, ws).value)
  {
    match LastMatch(es, ws)
    case Some(id) =>
      if Truthy(id) then
        var r := Remove(es, id);
        Outcome(r, Fanout(r, None, open, ClearOut(id)))
      else Outcome(es, [])
    case None => Outcome(es, [])
  }

  /** The events a connection delivers, one handler call at a time. */
  datatype Event = Message(from: Conn, msg: Inbound) | Closed(conn: Conn)

  /** One event: a message never shrinks the registry, a close never grows
      it, and no event adds more than one entry. */
  function Step(es: seq<Entry>, ev: Event, open: set<Conn>): (o: Outcome)
    ensures |o.registry| <= |es| + 1
    ensures ev.Message? ==> |es| <= |o.registry|
    ensures ev.Closed? ==> |o.registry| <= |es|
  {
    match ev
    case Message(ws, msg) => HandleMessage(es, ws, msg, open)
    case Closed(ws) => HandleClose(es, ws, open)
  }

  /** The registry after a serialized run of events, each paired with the set
      of connections that are open while it is handled. It grows by at most
      one entry per event. */
  function Run(es: seq<Entry>, trace: seq<(Event, set<Conn>)>): (r: seq<Entry>)
    ensures |r| <= |es| + |trace|
  {
    if trace == [] then es
    else Step(Run(es, trace[..|trace| - 1]), trace[|trace| - 1].0, trace[|trace| - 1].1).registry
  }

  /** `clients.has(id)` agrees with the dictionary view. */
  lemma {:induction false} HasIffInMap(es: seq<Entry>, id: Key)
    ensures (exists i :: 0 <= i < |es| && es[i].id == id) <==> id in AsMap(es)
  {
    if es != [] {
      var init := es[..|es| - 1];
      HasIffInMap(init, id);
      if exists i :: 0 <= i < |init| && init[i].id == id {
        var i :| 0 <= i < |init| && init[i].id == id;
        assert es[i] == init[i];
      }
      if (exists i :: 0 <= i < |es| && es[i].id == id) && es[|es| - 1].id != id {
        var i :| 0 <= i < |es| && es[i].id == id;
        assert init[i] == es[i];
      }
    }
  }

  /** `clients.delete(id)` drops exactly the entries keyed `id`. */
  lemma {:induction false} RemoveMembers(es: seq<Entry>, id: Key, e: Entry)
    ensures e in Remove(es, id) <==> e in es && e.id != id
  {
    if es != [] {
      RemoveMembers(es[..|es| - 1], id, e);
      assert es == es[..|es| - 1] + [es[|es| - 1]];
    }
  }

  /** A broadcast writes to exactly the eligible entries of the registry. */
  lemma {:induction false} RecipientsMembers(es: seq<Entry>, except: Option<Key>, open: set<Conn>, e: Entry)
    ensures e in Recipients(es, except, open) <==> e in es && Eligible(e, except, open)
  {
    if es != [] {
      RecipientsMembers(es[..|es| - 1], except, open, e);
      assert es == es[..|es| - 1] + [es[|es| - 1]];
    }
  }

  /** Registering keeps the Map's keys unique. */
  lemma RegisterKeepsDistinct(es: seq<Entry>, id: Key, c: Client)
    requires DistinctIds(es)
    ensures DistinctIds(Register(es, id, c))
  {
    if !Has(es, id) {
      var r := es + [Entry(id, c)];
      forall i, j | 0 <= i < j < |r| ensures r[i].id != r[j].id {
        if j == |es| {
          assert r[i] == es[i];
        }
      }
    }
  }

  /** Deleting an absent key changes nothing. */
  lemma {:induction false} RemoveAbsent(es: seq<Entry>, id: Key)
    requires !Has(es, id)
    ensures Remove(es, id) == es
  {
    if es != [] {
      var init := es[..|es| - 1];
      forall j | 0 <= j < |init| ensures init[j].id != id {
        assert init[j] == es[j];
      }
      RemoveAbsent(init, id);
      assert es == init + [es[|es| - 1]];
    }
  }

  /** With unique keys, deleting the key of entry `i` cuts out exactly that entry. */
  lemma {:induction false} RemoveAt(es: seq<Entry>, i: nat)
    requires DistinctIds(es) && i < |es|
    ensures Remove(es, es[i].id) == es[..i] + es[i + 1..]
  {
    var id := es[i].id;
    var init := es[..|es| - 1];
    var last := es[|es| - 1];
    if i == |es| - 1 {
      forall j | 0 <= j < |init| ensures init[j].id != id {
        assert init[j] == es[j];
      }
      RemoveAbsent(init, id);
      assert Remove(es, id) == Remove(init, id);
    } else {
      assert DistinctIds(init) by {
        forall a, b | 0 <= a < b < |init| ensures init[a].id != init[b].id {
          assert init[a] == es[a] && init[b] == es[b];
        }
      }
      assert init[i] == es[i];
      RemoveAt(init, i);
      assert last.id != id;
      assert Remove(es, id) == Remove(init, id) + [last];
      assert es[i + 1..] == init[i + 1..] + [last];
    }
  }

  /** Cutting one entry out of a registry keeps its keys unique. */
  lemma CutKeepsDistinct(es: seq<Entry>, i: nat)
    requires DistinctIds(es) && i < |es|
    ensures DistinctIds(es[..i] + es[i + 1..])
  {
    var r := es[..i] + es[i + 1..];
    forall a | 0 <= a < |r| ensures r[a] == es[if a < i then a else a + 1] { }
  }

  /** Deleting keeps the Map's keys unique. */
  lemma RemoveKeepsDistinct(es: seq<Entry>, id: Key)
    requires DistinctIds(es)
    ensures DistinctIds(Remove(es, id))
  {
    if Has(es, id) {
      var i :| 0 <= i < |es| && es[i].id == id;
      RemoveAt(es, i);
      CutKeepsDistinct(es, i);
    } else {
      RemoveAbsent(es, id);
    }
  }
}
