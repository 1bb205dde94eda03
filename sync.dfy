/** How the page's mirror relates to the server's registry: a page that
    connects, takes the `current-users` snapshot and then applies every
    event addressed to it, in order, holds exactly the server's `users`,
    with one marker per participant at its last reported position. */
module Sync {
  import opened Presence
  import opened Client

  /** The messages that reach the client on socket `me`, in emission order. */
  function Delivered(events: seq<Event>, me: string): (ms: seq<Message>)
    ensures |ms| <= |events|
    ensures forall m :: m in ms ==> exists i :: 0 <= i < |events| && events[i].message == m && AddressedTo(events[i], me)
    ensures |ms| == |events| <==> forall i :: 0 <= i < |events| ==> AddressedTo(events[i], me)
    decreases |events|
  {
    if events == [] then []
    else
      var rest := Delivered(events[1..], me);
      assert forall i :: 1 <= i < |events| ==> events[1..][i - 1] == events[i];
      DeliveredOne(events[0], me) + rest
  }

  /** socket.io's routing: an event reaches the socket `me` when it is
      broadcast to all or emitted on `me` itself. */
  predicate AddressedTo(e: Event, me: string) {
    e.audience == AllClients || e.audience == OnlySocket(me)
  }

  function DeliveredOne(e: Event, me: string): (ms: seq<Message>)
    ensures AddressedTo(e, me) ==> ms == [e.message]
    ensures !AddressedTo(e, me) ==> ms == []
  {
    if e.audience == AllClients || e.audience == OnlySocket(me) then [e.message] else []
  }

  lemma {:induction false} DeliveredAppend(a: seq<Event>, b: seq<Event>, me: string)
    ensures Delivered(a + b, me) == Delivered(a, me) + Delivered(b, me)
    decreases |a|
  {
    if a == [] {
      assert a + b == b;
    } else {
      assert (a + b)[0] == a[0];
      assert (a + b)[1..] == a[1..] + b;
      DeliveredAppend(a[1..], b, me);
      calc {
        Delivered(a + b, me);
        DeliveredOne(a[0], me) + Delivered(a[1..] + b, me);
        DeliveredOne(a[0], me) + (Delivered(a[1..], me) + Delivered(b, me));
        (DeliveredOne(a[0], me) + Delivered(a[1..], me)) + Delivered(b, me);
      }
    }
  }

  /** The page handles its messages one at a time, in arrival order; as
      long as every snapshot is well keyed, the markers keep agreeing with
      the data throughout. */
  function ReceiveAll(c: ClientState, ms: seq<Message>): (r: ClientState)
    ensures Consistent(c) && (forall i :: 0 <= i < |ms| && ms[i].CurrentUsers? ==> WellKeyed(ms[i].entries))
            ==> Consistent(r)
    decreases |ms|
  {
    if ms == [] then c
    else
      var c1 := Receive(c, ms[0]);
      assert forall i :: 1 <= i < |ms| ==> ms[1..][i - 1] == ms[i];
      if Consistent(c) && (ms[0].CurrentUsers? ==> WellKeyed(ms[0].entries)) then
        ReceivePreservesConsistency(c, ms[0]);
        ReceiveAll(c1, ms[1..])
      else ReceiveAll(c1, ms[1..])
  }

  lemma {:induction false} ReceiveAllAppend(c: ClientState, a: seq<Message>, b: seq<Message>)
    ensures ReceiveAll(c, a + b) == ReceiveAll(ReceiveAll(c, a), b)
    decreases |a|
  {
    if a == [] {
      assert a + b == b;
    } else {
      assert (a + b)[0] == a[0];
      assert (a + b)[1..] == a[1..] + b;
      ReceiveAllAppend(Receive(c, a[0]), a[1..], b);
    }
  }

  /** The page state that shows the registry `s` faithfully. */
  function Mirror(s: ServerState): (c: ClientState)
    ensures Consistent(c)
  {
    ClientState(s.users, MarkerView(s.users))
  }

  lemma {:induction false} ToMapOfEntries(users: map<string, UserRecord>, keys: seq<string>)
    ensures ToMap(Entries(users, keys)) == map k | k in users && k in keys :: users[k]
    decreases |keys|
  {
    if keys != [] {
      var init := keys[..|keys| - 1];
      var last := keys[|keys| - 1];
      ToMapOfEntries(users, init);
      var before := Entries(users, init);
      assert keys == init + [last];
      if last in users {
        var es := before + [Entry(last, users[last])];
        assert es[..|es| - 1] == before;
      } else {
        assert Entries(users, keys) == before;
      }
    }
  }

  /** The snapshot sent on connect decodes to the registry itself, and it
      is well keyed, so the page can take it over unchanged. */
  lemma SnapshotIsRegistry(s: ServerState)
    requires RegistryInvariant(s)
    ensures ToMap(Entries(s.users, s.keys)) == s.users
    ensures WellKeyed(Entries(s.users, s.keys))
  {
    ToMapOfEntries(s.users, s.keys);
  }

  /** One handler run on the server, followed by the page applying what
      it was sent, keeps the page equal to the registry. The page's own
      connect resets it to the registry whatever it held before. */
  lemma StepKeepsMirror(s: ServerState, op: ServerOp, c: ClientState, me: string)
    requires RegistryInvariant(s) && s.io
    requires c == Mirror(s) || op == ConnectOp(me)
    requires op != DisconnectOp(me)
    ensures ReceiveAll(c, Delivered(Apply(s, op).events, me)) == Mirror(Apply(s, op).state)
  {
    match op
    case ConnectOp(sid) => ConnectKeepsMirror(s, sid, c, me);
    case SendLocationOp(sid, data, now) => UpdateKeepsMirror(s, sid, data, now, me);
    case DisconnectOp(sid) => DisconnectKeepsMirror(s, sid, me);
  }

  lemma ConnectKeepsMirror(s: ServerState, sid: string, c: ClientState, me: string)
    requires RegistryInvariant(s)
    requires c == Mirror(s) || sid == me
    ensures ReceiveAll(c, Delivered(Connect(s, sid).events, me)) == Mirror(s)
  {
    var snapshot := CurrentUsers(Entries(s.users, s.keys));
    if sid == me {
      assert Delivered(Connect(s, sid).events, me) == [snapshot];
      SnapshotIsRegistry(s);
      SnapshotReplacesState(c, Entries(s.users, s.keys));
      assert ReceiveAll(c, [snapshot]) == ReceiveAll(Receive(c, snapshot), []);
    } else {
      assert Delivered(Connect(s, sid).events, me) == [];
    }
  }

  lemma UpdateKeepsMirror(s: ServerState, sid: string, data: LocationData, now: int, me: string)
    requires s.io
    ensures var r := LocationUpdate(s, sid, data, now);
      ReceiveAll(Mirror(s), Delivered(r.events, me)) == Mirror(r.state)
  {
    var r := LocationUpdate(s, sid, data, now);
    var record := NewRecord(sid, data, now);
    var msg := ReceiveLocation(record);
    assert Delivered(r.events, me) == [msg];
    assert ReceiveAll(Mirror(s), [msg]) == ReceiveAll(Receive(Mirror(s), msg), []);
    assert r.state.users == s.users[data.id := record];
    MarkerViewUpdate(s.users, data.id, record);
  }

  lemma DisconnectKeepsMirror(s: ServerState, sid: string, me: string)
    requires RegistryInvariant(s) && s.io
    ensures var r := Disconnect(s, sid);
      ReceiveAll(Mirror(s), Delivered(r.events, me)) == Mirror(r.state)
  {
    var r := Disconnect(s, sid);
    var owner := FindOwned(s.users, s.keys, sid);
    if owner.Some? && owner.value != "" {
      var msg := UserDisconnected(owner.value);
      assert Delivered(r.events, me) == [msg];
      assert ReceiveAll(Mirror(s), [msg]) == ReceiveAll(Receive(Mirror(s), msg), []);
      MarkerViewRemove(s.users, owner.value);
    } else {
      assert Delivered(r.events, me) == [];
    }
  }

  lemma MarkerViewRemove(data: map<string, UserRecord>, k: string)
    ensures MarkerView(data - {k}) == MarkerView(data) - {k}
  {
  }

  /** A whole run of handlers, none of them the page's own disconnect. */
  lemma {:induction false} RunKeepsMirror(s: ServerState, ops: seq<ServerOp>, c: ClientState, me: string)
    requires RegistryInvariant(s) && s.io
    requires c == Mirror(s) || (|ops| >= 1 && ops[0] == ConnectOp(me))
    requires forall i :: 0 <= i < |ops| ==> ops[i] != DisconnectOp(me)
    ensures ReceiveAll(c, Delivered(Run(s, ops).events, me)) == Mirror(Run(s, ops).state)
    decreases |ops|
  {
    if ops != [] {
      var first := Apply(s, ops[0]);
      var rest := Run(first.state, ops[1..]);
      StepKeepsMirror(s, ops[0], c, me);
      var c1 := ReceiveAll(c, Delivered(first.events, me));
      RunKeepsMirror(first.state, ops[1..], c1, me);
      DeliveredAppend(first.events, rest.events, me);
      ReceiveAllAppend(c, Delivered(first.events, me), Delivered(rest.events, me));
    }
  }

  /** The end-to-end guarantee: a page that joins (from any state of its
      own) and stays connected holds the registry after every later run
      of handlers, with its markers in agreement. */
  lemma JoinedClientHoldsRegistry(s: ServerState, me: string, ops: seq<ServerOp>, c: ClientState)
    requires RegistryInvariant(s) && s.io
    requires forall i :: 0 <= i < |ops| ==> ops[i] != DisconnectOp(me)
    ensures var r := Run(s, [ConnectOp(me)] + ops);
      var page := ReceiveAll(c, Delivered(r.events, me));
      && page.localUserData == r.state.users
      && page.markers.Keys == r.state.users.Keys
      && forall k :: k in page.markers ==> page.markers[k] == PositionOf(r.state.users[k])
  {
    var all := [ConnectOp(me)] + ops;
    assert forall i :: 0 <= i < |all| ==> all[i] != DisconnectOp(me);
    RunKeepsMirror(s, all, c, me);
  }
}
