/** What the relay's handlers promise, stated over the registry functions:
    the Map view of each update, who receives a broadcast and in what order,
    which entry a close removes, and the invariants kept across a run. */
module Properties {
  import opened Messages
  import opened Registry

  // ---------------------------------------------------------------------------
  // The registry as a Map

  /** With unique keys, the dictionary maps each key to the client stored in its entry. */
  lemma {:induction false} AsMapAt(es: seq<Entry>, i: nat)
    requires DistinctIds(es) && i < |es|
    ensures es[i].id in AsMap(es) && AsMap(es)[es[i].id] == es[i].client
  {
    var init := es[..|es| - 1];
    if i < |es| - 1 {
      assert init[i] == es[i];
      AsMapAt(init, i);
      assert es[|es| - 1].id != es[i].id;
    }
  }

  /** A `touchUpdate`'s registration: a new id gains exactly one entry
      `{ws: sender, color}` at the end; a known id keeps its stored connection
      and color. Existing entries never move or change. */
  lemma RegisterFirstWins(es: seq<Entry>, id: Key, c: Client)
    ensures !Has(es, id) ==> Register(es, id, c) == es + [Entry(id, c)]
    ensures Has(es, id) ==> Register(es, id, c) == es
    ensures AsMap(Register(es, id, c)) == (if id in AsMap(es) then AsMap(es) else AsMap(es)[id := c])
  {
    var r := Register(es, id, c);
    if !Has(es, id) {
      assert r[..|r| - 1] == es;
    }
  }

  /** `clients.delete(id)` in the dictionary view. */
  lemma {:induction false} RemoveAsMap(es: seq<Entry>, id: Key)
    ensures AsMap(Remove(es, id)) == AsMap(es) - {id}
  {
    if es != [] {
      var init := es[..|es| - 1];
      var last := es[|es| - 1];
      RemoveAsMap(init, id);
      var rest := Remove(init, id);
      if last.id != id {
        assert (rest + [last])[..|rest|] == rest;
      }
    }
  }

  // ---------------------------------------------------------------------------
  // Broadcasts

  /** A broadcast visits the registry in insertion order: its recipients are
      entries of the registry at strictly increasing positions. */
  lemma {:induction false} RecipientsInOrder(es: seq<Entry>, except: Option<Key>, open: set<Conn>)
    returns (pos: seq<nat>)
    ensures |pos| == |Recipients(es, except, open)|
    ensures forall k :: 0 <= k < |pos| ==>
              pos[k] < |es| && Recipients(es, except, open)[k] == es[pos[k]]
    ensures forall k, l :: 0 <= k < l < |pos| ==> pos[k] < pos[l]
  {
    if es == [] {
      pos := [];
    } else {
      var init := es[..|es| - 1];
      pos := RecipientsInOrder(init, except, open);
      forall k | 0 <= k < |pos| ensures init[pos[k]] == es[pos[k]] { }
      if Eligible(es[|es| - 1], except, open) {
        pos := pos + [|es| - 1];
      }
    }
  }

  /** With unique keys, a broadcast writes to each recipient entry exactly once. */
  lemma RecipientsOncePerEntry(es: seq<Entry>, except: Option<Key>, open: set<Conn>)
    requires DistinctIds(es)
    ensures DistinctIds(Recipients(es, except, open))
  {
    var r := Recipients(es, except, open);
    var pos := RecipientsInOrder(es, except, open);
    forall k, l | 0 <= k < l < |r| ensures r[k].id != r[l].id {
      assert r[k] == es[pos[k]] && r[l] == es[pos[l]];
    }
  }

  /** With unique keys, each entry occurs at most once. */
  lemma {:induction false} OnceEach(s: seq<Entry>, e: Entry)
    requires DistinctIds(s)
    ensures multiset(s)[e] == if e in s then 1 else 0
  {
    if s != [] {
      var init := s[..|s| - 1];
      assert s == init + [s[|s| - 1]];
      assert DistinctIds(init) by {
        forall a, b | 0 <= a < b < |init| ensures init[a].id != init[b].id {
          assert init[a] == s[a] && init[b] == s[b];
        }
      }
      OnceEach(init, e);
      if e == s[|s| - 1] {
        forall j | 0 <= j < |init| ensures init[j] != e {
          assert init[j] == s[j];
        }
      }
    }
  }

  /** A broadcast only writes to open connections. */
  lemma FanoutOnlyToOpen(es: seq<Entry>, except: Option<Key>, open: set<Conn>, msg: OutMsg)
    ensures forall s :: s in Fanout(es, except, open, msg) ==> s.to in open
  {
    var sends := Fanout(es, except, open, msg);
    var r := Recipients(es, except, open);
    forall s | s in sends ensures s.to in open {
      var k :| 0 <= k < |sends| && sends[k] == s;
      RecipientsMembers(es, except, open, r[k]);
    }
  }

  /** Every send of every event goes to an open connection. */
  lemma SendsOnlyToOpen(es: seq<Entry>, ev: Event, open: set<Conn>)
    ensures forall s :: s in Step(es, ev, open).sends ==> s.to in open
  {
    match ev
    case Message(ws, msg) => {
      match msg {
        case TouchUpdate(id, color, touches) =>
          FanoutOnlyToOpen(Register(es, id, Client(ws, color)), Some(id), open, TouchOut(id, color, touches));
        case ClearTouches(id) =>
          FanoutOnlyToOpen(es, Some(id), open, ClearOut(id));
        case Unrecognized =>
        case Malformed =>
      }
    }
    case Closed(ws) =>
      if LastMatch(es, ws).Some? {
        var gone := LastMatch(es, ws).value;
        FanoutOnlyToOpen(Remove(es, gone), None, open, ClearOut(gone));
      }
  }

  /** A `touchUpdate` writes exactly once to every entry of the updated
      registry whose id is not the sender's and whose connection is open, and
      to no other; each frame carries the inbound clientId, color and touches
      unchanged (not the color stored at registration). When the id is new and
      the registration log throws, it writes nothing. */
  lemma TouchUpdateSends(es: seq<Entry>, ws: Conn, id: Key, color: Json, touches: Json,
                         open: set<Conn>, e: Entry)
    requires DistinctIds(es)
    ensures var o := HandleTouchUpdate(es, ws, id, color, touches, open);
      var r := Recipients(o.registry, Some(id), open);
      if !Has(es, id) && RegistrationLogThrows(id, color) then o.sends == []
      else
        multiset(r)[e] == (if e in o.registry && e.id != id && e.client.ws in open then 1 else 0) &&
        |o.sends| == |r| &&
        forall k :: 0 <= k < |o.sends| ==>
          o.sends[k] == Send(r[k].client.ws, TouchOut(id, color, touches))
  {
    var reg := Register(es, id, Client(ws, color));
    RegisterKeepsDistinct(es, id, Client(ws, color));
    RecipientsOncePerEntry(reg, Some(id), open);
    RecipientsMembers(reg, Some(id), open, e);
    OnceEach(Recipients(reg, Some(id), open), e);
  }

  /** A `clearTouches` leaves the registry alone, registered sender or not,
      and writes exactly one `clearTouches` carrying the sender's id to every
      other open entry, and none to any other entry. */
  lemma ClearTouchesSends(es: seq<Entry>, id: Key, open: set<Conn>, e: Entry)
    requires DistinctIds(es)
    ensures var o := HandleClearTouches(es, id, open);
      var r := Recipients(es, Some(id), open);
      o.registry == es &&
      multiset(r)[e] == (if e in es && e.id != id && e.client.ws in open then 1 else 0) &&
      |o.sends| == |r| &&
      forall k :: 0 <= k < |o.sends| ==> o.sends[k] == Send(r[k].client.ws, ClearOut(id))
  {
    RecipientsOncePerEntry(es, Some(id), open);
    RecipientsMembers(es, Some(id), open, e);
    OnceEach(Recipients(es, Some(id), open), e);
  }

  /** A frame that failed to parse, or whose `type` is not handled, changes
      nothing and sends nothing. */
  lemma IgnoredMessagesInert(es: seq<Entry>, ws: Conn, msg: Inbound, open: set<Conn>)
    requires msg.Unrecognized? || msg.Malformed?
    ensures HandleMessage(es, ws, msg, open) == Outcome(es, [])
  {
  }

  // ---------------------------------------------------------------------------
  // Disconnection

  /** The scan finds the LAST entry, in insertion order, whose connection is
      the closing one. */
  lemma {:induction false} LastMatchAt(es: seq<Entry>, ws: Conn) returns (i: nat)
    requires LastMatch(es, ws).Some?
    ensures i < |es| && es[i].client.ws == ws && es[i].id == LastMatch(es, ws).value
    ensures forall j :: i < j < |es| ==> es[j].client.ws != ws
  {
    if es[|es| - 1].client.ws == ws {
      i := |es| - 1;
    } else {
      var init := es[..|es| - 1];
      i := LastMatchAt(init, ws);
      assert es[i] == init[i];
      forall j | i < j < |es| ensures es[j].client.ws != ws {
        if j < |es| - 1 {
          assert es[j] == init[j];
        }
      }
    }
  }

  /** The scan comes back `null` exactly when no entry is on the closing connection. */
  lemma {:induction false} LastMatchNone(es: seq<Entry>, ws: Conn)
    ensures LastMatch(es, ws).None? <==> forall i :: 0 <= i < |es| ==> es[i].client.ws != ws
  {
    if es != [] && es[|es| - 1].client.ws != ws {
      var init := es[..|es| - 1];
      LastMatchNone(init, ws);
      forall i | 0 <= i < |init| ensures init[i] == es[i] { }
    }
  }

  /** A close whose scan finds a truthy id removes exactly the last entry on
      that connection; every other entry stays, in order. */
  lemma CloseRemovesLastMatch(es: seq<Entry>, ws: Conn, open: set<Conn>) returns (i: nat)
    requires DistinctIds(es)
    requires LastMatch(es, ws).Some? && Truthy(LastMatch(es, ws).value)
    ensures i < |es| && es[i].client.ws == ws && Truthy(es[i].id)
    ensures forall j :: i < j < |es| ==> es[j].client.ws != ws
    ensures HandleClose(es, ws, open).registry == es[..i] + es[i + 1..]
    ensures AsMap(HandleClose(es, ws, open).registry) == AsMap(es) - {es[i].id}
  {
    i := LastMatchAt(es, ws);
    RemoveAt(es, i);
    RemoveAsMap(es, es[i].id);
  }

  /** After a removal, every remaining entry with an open connection is sent
      exactly one `clearTouches` for the removed id, and no id is excluded. */
  lemma CloseNotifiesRemaining(es: seq<Entry>, ws: Conn, open: set<Conn>, e: Entry)
    requires DistinctIds(es)
    requires LastMatch(es, ws).Some? && Truthy(LastMatch(es, ws).value)
    ensures var o := HandleClose(es, ws, open);
      var gone := LastMatch(es, ws).value;
      var r := Recipients(o.registry, None, open);
      multiset(r)[e] == (if e in es && e.id != gone && e.client.ws in open then 1 else 0) &&
      |o.sends| == |r| &&
      forall k :: 0 <= k < |o.sends| ==> o.sends[k] == Send(r[k].client.ws, ClearOut(gone))
  {
    var gone := LastMatch(es, ws).value;
    var rest := Remove(es, gone);
    RemoveKeepsDistinct(es, gone);
    RecipientsOncePerEntry(rest, None, open);
    RecipientsMembers(rest, None, open, e);
    RemoveMembers(es, gone, e);
    OnceEach(Recipients(rest, None, open), e);
  }

  /** A close with no entry on the connection, or whose scan ends on a falsy
      id, changes nothing and sends nothing. */
  lemma CloseInert(es: seq<Entry>, ws: Conn, open: set<Conn>)
    requires LastMatch(es, ws).None? || !Truthy(LastMatch(es, ws).value)
    ensures HandleClose(es, ws, open) == Outcome(es, [])
  {
  }

  /** An entry registered under a falsy id (`""`, `0`, `false`, `null`,
      `undefined`) is never removed by a close. */
  lemma FalsyIdNeverRemoved(es: seq<Entry>, ws: Conn, open: set<Conn>, e: Entry)
    requires e in es && !Truthy(e.id)
    ensures e in HandleClose(es, ws, open).registry
  {
    if LastMatch(es, ws).Some? {
      RemoveMembers(es, LastMatch(es, ws).value, e);
    }
  }

  // ---------------------------------------------------------------------------
  // Invariants across events

  /** Every handler keeps the Map's keys unique. */
  lemma StepKeepsDistinct(es: seq<Entry>, ev: Event, open: set<Conn>)
    requires DistinctIds(es)
    ensures DistinctIds(Step(es, ev, open).registry)
  {
    match ev
    case Message(ws, msg) =>
      if msg.TouchUpdate? {
        RegisterKeepsDistinct(es, msg.clientId, Client(ws, msg.color));
      }
    case Closed(ws) =>
      if LastMatch(es, ws).Some? {
        RemoveKeepsDistinct(es, LastMatch(es, ws).value);
      }
  }

  /** Keys stay unique over any serialized run of events. */
  lemma {:induction false} RunKeepsDistinct(es: seq<Entry>, trace: seq<(Event, set<Conn>)>)
    requires DistinctIds(es)
    ensures DistinctIds(Run(es, trace))
  {
    if trace != [] {
      RunKeepsDistinct(es, trace[..|trace| - 1]);
      StepKeepsDistinct(Run(es, trace[..|trace| - 1]), trace[|trace| - 1].0, trace[|trace| - 1].1);
    }
  }

  // ---------------------------------------------------------------------------
  // Concrete runs

  /** A new id whose color is an object with its own `toString` key: the
      registration log throws after `clients.set`, so the client is
      registered and no one, not even the open B1, is sent the update. */
  lemma RegistrationLogThrowCancelsBroadcast(touches: Json)
    ensures var es := [Entry(Str("B1"), Client(2, JStr("blue")))];
      var color := JObject([("toString", JNum(0.0))]);
      var o := HandleTouchUpdate(es, 1, Str("A1"), color, touches, {1, 2});
      o.registry == es + [Entry(Str("A1"), Client(1, color))] && o.sends == []
  {
    var es := [Entry(Str("B1"), Client(2, JStr("blue")))];
    var color := JObject([("toString", JNum(0.0))]);
    assert !Has(es, Str("A1"));
    assert ToStringThrows(color) by {
      assert color.fields[0].0 == "toString";
    }
  }

  /** Clients A, B, C on connections 1, 2, 3, with B1 and C1 registered: A's
      first update registers A1 and reaches B and C once each, not A. */
  lemma ThreeClientsUpdate(touches: Json)
    ensures var es := [Entry(Str("B1"), Client(2, JStr("blue"))), Entry(Str("C1"), Client(3, JStr("green")))];
      var up := HandleTouchUpdate(es, 1, Str("A1"), JStr("red"), touches, {1, 2, 3});
      var msg := TouchOut(Str("A1"), JStr("red"), touches);
      up.registry == es + [Entry(Str("A1"), Client(1, JStr("red")))] &&
      up.sends == [Send(2, msg), Send(3, msg)]
  {
    var b, c, a := Entry(Str("B1"), Client(2, JStr("blue"))), Entry(Str("C1"), Client(3, JStr("green"))),
                   Entry(Str("A1"), Client(1, JStr("red")));
    var msg := TouchOut(Str("A1"), JStr("red"), touches);
    assert HandleTouchUpdate([b, c], 1, Str("A1"), JStr("red"), touches, {1, 2, 3})
        == Outcome([b, c, a], [Send(2, msg), Send(3, msg)]) by {
      assert Register([b, c], Str("A1"), a.client) == [b, c, a] by {
        assert !Has([b, c], Str("A1"));
      }
      assert !RegistrationLogThrows(Str("A1"), JStr("red"));
      assert Fanout([b, c, a], Some(Str("A1")), {1, 2, 3}, msg) == [Send(2, msg), Send(3, msg)] by {
        assert [b, c, a][..2] == [b, c] && [b, c][..1] == [b] && [b][..0] == [];
        assert Fanout([b], Some(Str("A1")), {1, 2, 3}, msg) == [Send(2, msg)];
      }
    }
    assert [b, c] + [a] == [b, c, a];
  }


  /** Continuing that run: B's connection closes, B1 is removed, and C and A
      (in insertion order) each get one `clearTouches` for B1. */
  lemma ThreeClientsClose()
    ensures var es := [Entry(Str("B1"), Client(2, JStr("blue"))), Entry(Str("C1"), Client(3, JStr("green"))),
                       Entry(Str("A1"), Client(1, JStr("red")))];
      var down := HandleClose(es, 2, {1, 3});
      down.registry == es[1..] &&
      down.sends == [Send(3, ClearOut(Str("B1"))), Send(1, ClearOut(Str("B1")))]
  {
    var b, c, a := Entry(Str("B1"), Client(2, JStr("blue"))), Entry(Str("C1"), Client(3, JStr("green"))),
                   Entry(Str("A1"), Client(1, JStr("red")));
    var es := [b, c, a];
    var gone := ClearOut(Str("B1"));
    assert HandleClose(es, 2, {1, 3}) == Outcome([c, a], [Send(3, gone), Send(1, gone)]) by {
      assert LastMatch(es, 2) == Some(Str("B1")) by {
        assert es[..2] == [b, c] && [b, c][..1] == [b];
        assert LastMatch([b], 2) == Some(Str("B1"));
      }
      assert Remove(es, Str("B1")) == [c, a] by {
        RemoveAt(es, 0);
      }
      assert Fanout([c, a], None, {1, 3}, gone) == [Send(3, gone), Send(1, gone)] by {
        assert [c, a][..1] == [c] && [c][..0] == [];
        assert Fanout([c], None, {1, 3}, gone) == [Send(3, gone)];
      }
    }
    assert es[1..] == [c, a];
  }

  /** The sender is excluded by id, not by connection: a connection that is
      also registered under a second id receives its own `clearTouches`. */
  lemma ExclusionIsById(color: Json)
    ensures var es := [Entry(Str("a"), Client(1, color)), Entry(Str("b"), Client(1, color))];
      HandleClearTouches(es, Str("a"), {1}).sends == [Send(1, ClearOut(Str("a")))]
  {
    var es := [Entry(Str("a"), Client(1, color)), Entry(Str("b"), Client(1, color))];
    assert es[..1] == [es[0]];
  }

  /** A second `touchUpdate` under a known id from a new connection with a new
      color leaves the stale record in place; the forwarded frame still carries
      the new color. */
  lemma StaleRegistrationKept(touches: Json)
    ensures var es := [Entry(Str("a"), Client(1, JStr("red"))), Entry(Str("b"), Client(3, JStr("blue")))];
      var o := HandleTouchUpdate(es, 2, Str("a"), JStr("green"), touches, {2, 3});
      o.registry == es && o.sends == [Send(3, TouchOut(Str("a"), JStr("green"), touches))]
  {
    var es := [Entry(Str("a"), Client(1, JStr("red"))), Entry(Str("b"), Client(3, JStr("blue")))];
    assert es[0].id == Str("a");
    assert es[..1] == [es[0]];
  }

  /** A connection registered under two ids loses only the later one on close. */
  lemma CloseRemovesOnlyLast(color: Json)
    ensures var es := [Entry(Str("a"), Client(1, color)), Entry(Str("b"), Client(1, color))];
      HandleClose(es, 1, {}) == Outcome([es[0]], [])
  {
    var es := [Entry(Str("a"), Client(1, color)), Entry(Str("b"), Client(1, color))];
    RemoveAt(es, 1);
  }

  /** When the later id on the closing connection is `""`, the scan ends on a
      falsy id and nothing is removed, not even the truthy earlier one. */
  lemma FalsyLastMatchShadows(color: Json)
    ensures var es := [Entry(Str("a"), Client(1, color)), Entry(Str(""), Client(1, color))];
      HandleClose(es, 1, {2}) == Outcome(es, [])
  {
  }
}
