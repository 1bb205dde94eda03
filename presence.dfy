/** The server-side presence registry of `SocketService`: the module-level
    `users` object (participant id -> last location record), the socket.io
    server handle `io`, and the three handlers that read and change them.
    Every emission is appended to an event log, so "what was sent to whom"
    is part of the state the contracts speak about. */
module Presence {
  import opened Wrappers

  /** One entry of `users`: the object literal built by a location update. */
  datatype UserRecord = UserRecord(
    id: string,
    name: string,
    lat: real,
    lng: real,
    timestamp: int,
    socketId: string)

  /** The `send-location` payload; only these four fields are read. */
  datatype LocationData = LocationData(id: string, name: string, lat: real, lng: real)

  /** One property of a serialised `users` object, in key order. */
  datatype Entry = Entry(key: string, record: UserRecord)

  datatype Message =
    | CurrentUsers(entries: seq<Entry>)
    | ReceiveLocation(record: UserRecord)
    | UserDisconnected(id: string)

  /** `socket.emit` reaches one client; `io.emit` reaches every connected one. */
  datatype Audience = OnlySocket(socketId: string) | AllClients

  datatype Event = Event(audience: Audience, message: Message)

  /** The registry together with the order `Object.keys` lists its keys in,
      and whether `init` has supplied a socket.io server. */
  datatype ServerState = ServerState(users: map<string, UserRecord>, keys: seq<string>, io: bool)

  /** The state after one handler, and what it emitted, in order. */
  datatype Step = Step(state: ServerState, events: seq<Event>)

  predicate Distinct(s: seq<string>) {
    forall i, j :: 0 <= i < j < |s| ==> s[i] != s[j]
  }

  /** Every entry is stored under its own `id`. */
  predicate KeysMatchIds(users: map<string, UserRecord>) {
    forall k :: k in users ==> users[k].id == k
  }

  /** `keys` lists every key of `users` exactly once, and keys match ids. */
  predicate RegistryInvariant(s: ServerState) {
    && Distinct(s.keys)
    && (forall k :: k in s.keys ==> k in s.users)
    && (forall k :: k in s.users ==> k in s.keys)
    && KeysMatchIds(s.users)
  }

  function EmptyState(): ServerState {
    ServerState(map[], [], false)
  }

  /** The serialised form of `users`: its properties in key order. */
  function Entries(users: map<string, UserRecord>, keys: seq<string>): (es: seq<Entry>)
    ensures |es| <= |keys|
    ensures forall i :: 0 <= i < |es| ==> es[i].key in users && es[i].record == users[es[i].key]
    decreases |keys|
  {
    if keys == [] then []
    else
      var last := keys[|keys| - 1];
      Entries(users, keys[..|keys| - 1]) + (if last in users then [Entry(last, users[last])] else [])
  }

  /** Under the invariant the snapshot lists every record once, key by key. */
  lemma {:induction false} EntriesOfWellFormed(users: map<string, UserRecord>, keys: seq<string>)
    requires forall k :: k in keys ==> k in users
    ensures |Entries(users, keys)| == |keys|
    ensures forall i :: 0 <= i < |keys| ==> Entries(users, keys)[i] == Entry(keys[i], users[keys[i]])
    decreases |keys|
  {
    if keys != [] {
      var init := keys[..|keys| - 1];
      assert forall k :: k in init ==> k in keys;
      EntriesOfWellFormed(users, init);
    }
  }

  /** `socket.id` owns key `k`: the record stored there was last written by it. */
  predicate Owns(users: map<string, UserRecord>, k: string, socketId: string) {
    k in users && users[k].socketId == socketId
  }

  /** The first key, in `Object.keys` order, whose record carries the
      disconnecting socket's id. */
  function FindOwned(users: map<string, UserRecord>, keys: seq<string>, socketId: string): (r: Option<string>)
    ensures r.Some? ==> Owns(users, r.value, socketId)
    ensures r.Some? ==> exists i :: 0 <= i < |keys| && keys[i] == r.value
                          && forall j :: 0 <= j < i ==> !Owns(users, keys[j], socketId)
    ensures r.None? <==> forall i :: 0 <= i < |keys| ==> !Owns(users, keys[i], socketId)
    decreases |keys|
  {
    if keys == [] then None
    else if Owns(users, keys[0], socketId) then Some(keys[0])
    else
      var r := FindOwned(users, keys[1..], socketId);
      assert forall i :: 1 <= i < |keys| ==> keys[i] == keys[1..][i - 1];
      r
  }

  /** `delete users[k]` as seen by `Object.keys`: `k` leaves, the rest keep their order. */
  function RemoveKey(keys: seq<string>, k: string): (r: seq<string>)
    ensures forall x :: x in r <==> x in keys && x != k
    ensures Distinct(keys) ==> Distinct(r)
    decreases |keys|
  {
    if keys == [] then []
    else if keys[0] == k then RemoveKey(keys[1..], k)
    else
      var rest := RemoveKey(keys[1..], k);
      assert Distinct(keys) ==> keys[0] !in keys[1..] && Distinct(keys[1..]);
      [keys[0]] + rest
  }

  /** `delete` keeps the order of the other keys: removing a key that sits
      between `a` and `b` leaves `a + b`. */
  lemma {:induction false} RemoveKeyKeepsOrder(a: seq<string>, k: string, b: seq<string>)
    requires k !in a && k !in b
    ensures RemoveKey(a + [k] + b, k) == a + b
    decreases |a|
  {
    var keys := a + [k] + b;
    if a == [] {
      assert keys[0] == k && keys[1..] == b;
      RemoveKeyAbsent(b, k);
    } else {
      var tail := a[1..];
      assert a[0] in a;
      assert keys[0] == a[0] && keys[0] != k;
      assert keys[1..] == tail + [k] + b;
      assert k !in tail by { assert forall x :: x in tail ==> x in a; }
      RemoveKeyKeepsOrder(tail, k, b);
      assert RemoveKey(keys, k) == [a[0]] + RemoveKey(keys[1..], k);
      assert [a[0]] + (tail + b) == a + b;
    }
  }

  /** Deleting a key that is not there leaves the order as it was. */
  lemma {:induction false} RemoveKeyAbsent(keys: seq<string>, k: string)
    requires k !in keys
    ensures RemoveKey(keys, k) == keys
    decreases |keys|
  {
    if keys != [] {
      RemoveKeyAbsent(keys[1..], k);
      assert [keys[0]] + keys[1..] == keys;
    }
  }

  /** The record `handleLocationUpdate` stores: built from the payload, the
      clock and the socket alone, so nothing of an earlier record survives. */
  function NewRecord(socketId: string, data: LocationData, now: int): (r: UserRecord)
    ensures r.id == data.id && r.name == data.name && r.lat == data.lat && r.lng == data.lng
    ensures r.timestamp == now && r.socketId == socketId
  {
    UserRecord(data.id, data.name, data.lat, data.lng, now, socketId)
  }

  /** `handleConnection`: the snapshot goes to the new socket only. */
  function Connect(s: ServerState, socketId: string): (r: Step)
    ensures r.state == s
    ensures r.events == [Event(OnlySocket(socketId), CurrentUsers(Entries(s.users, s.keys)))]
  {
    Step(s, [Event(OnlySocket(socketId), CurrentUsers(Entries(s.users, s.keys)))])
  }

  /** `handleLocationUpdate`: the whole record under `data.id` is replaced. */
  function LocationUpdate(s: ServerState, socketId: string, data: LocationData, now: int): (r: Step)
    ensures r.state.io == s.io
    ensures r.state.keys == if data.id in s.users then s.keys else s.keys + [data.id]
    ensures r.state.users.Keys == s.users.Keys + {data.id}
    ensures r.state.users[data.id] == UserRecord(data.id, data.name, data.lat, data.lng, now, socketId)
    ensures forall k :: k in s.users && k != data.id ==> r.state.users[k] == s.users[k]
    ensures r.events == if s.io then [Event(AllClients, ReceiveLocation(r.state.users[data.id]))] else []
    ensures RegistryInvariant(s) ==> RegistryInvariant(r.state)
  {
    var record := NewRecord(socketId, data, now);
    var keys := if data.id in s.users then s.keys else s.keys + [data.id];
    var users := s.users[data.id := record];
    Step(ServerState(users, keys, s.io),
         if s.io then [Event(AllClients, ReceiveLocation(record))] else [])
  }

  /** `handleDisconnect`: the first key owned by the socket is deleted and
      announced, unless that key is the empty string, which `if (userId)`
      treats as "not found". */
  function Disconnect(s: ServerState, socketId: string): (r: Step)
    ensures r.state.io == s.io
    ensures
      var owner := FindOwned(s.users, s.keys, socketId);
      if owner.Some? && owner.value != "" then
        && r.state.users == s.users - {owner.value}
        && r.state.keys == RemoveKey(s.keys, owner.value)
        && r.events == if s.io then [Event(AllClients, UserDisconnected(owner.value))] else []
      else
        r == Step(s, [])
    ensures RegistryInvariant(s) ==> RegistryInvariant(r.state)
  {
    var owner := FindOwned(s.users, s.keys, socketId);
    if owner.Some? && owner.value != "" then
      var userId := owner.value;
      Step(ServerState(s.users - {userId}, RemoveKey(s.keys, userId), s.io),
           if s.io then [Event(AllClients, UserDisconnected(userId))] else [])
    else
      Step(s, [])
  }

  /** A disconnect leaves every record that the socket does not own exactly
      as it was, and removes at most one record. */
  lemma DisconnectSparesOthers(s: ServerState, socketId: string)
    requires RegistryInvariant(s)
    ensures var after := Disconnect(s, socketId).state.users;
      && after.Keys <= s.users.Keys
      && |s.users.Keys - after.Keys| <= 1
      && forall k :: k in s.users && s.users[k].socketId != socketId ==> k in after && after[k] == s.users[k]
  {
    var owner := FindOwned(s.users, s.keys, socketId);
    if owner.Some? && owner.value != "" {
      assert s.users.Keys - (s.users - {owner.value}).Keys == {owner.value};
    } else {
      assert s.users.Keys - s.users.Keys == {};
    }
  }

  /** A socket that owns no record: its disconnect changes nothing and emits nothing. */
  lemma DisconnectOfNonOwnerIsNoOp(s: ServerState, socketId: string)
    requires RegistryInvariant(s)
    requires forall k :: k in s.users ==> s.users[k].socketId != socketId
    ensures Disconnect(s, socketId) == Step(s, [])
  {
    var owner := FindOwned(s.users, s.keys, socketId);
    assert forall i :: 0 <= i < |s.keys| ==> !Owns(s.users, s.keys[i], socketId);
  }

  /** The reconnect rule: once socket `b` has written `data.id`, a later
      disconnect of an earlier socket `a` leaves that record in place and
      announces nothing about it. */
  lemma StaleDisconnectKeepsRecord(s: ServerState, a: string, b: string, data: LocationData, now: int)
    requires RegistryInvariant(s)
    requires a != b
    ensures var updated := LocationUpdate(s, b, data, now).state;
      var r := Disconnect(updated, a);
      && data.id in r.state.users
      && r.state.users[data.id] == updated.users[data.id]
      && Event(AllClients, UserDisconnected(data.id)) !in r.events
  {
    var updated := LocationUpdate(s, b, data, now).state;
    DisconnectSparesOthers(updated, a);
  }

  /** `if (userId)` is false for the key "": a record stored under the empty
      id is never removed by its socket's disconnect. */
  lemma EmptyIdBlocksDisconnect(s: ServerState, socketId: string, data: LocationData, now: int)
    requires RegistryInvariant(s)
    requires data.id == ""
    requires forall k :: k in s.users ==> s.users[k].socketId != socketId
    ensures var updated := LocationUpdate(s, socketId, data, now).state;
      Disconnect(updated, socketId) == Step(updated, [])
  {
    var updated := LocationUpdate(s, socketId, data, now).state;
    var owner := FindOwned(updated.users, updated.keys, socketId);
    assert Owns(updated.users, "", socketId);
    assert "" in updated.keys;
    assert owner.Some?;
    assert owner.value == "";
  }

  /** The inputs of the three handlers, for reasoning about runs. */
  datatype ServerOp =
    | ConnectOp(socketId: string)
    | SendLocationOp(socketId: string, data: LocationData, now: int)
    | DisconnectOp(socketId: string)

  /** One handler run; each keeps the registry invariant and the `io` flag. */
  function Apply(s: ServerState, op: ServerOp): (r: Step)
    ensures r.state.io == s.io
    ensures RegistryInvariant(s) ==> RegistryInvariant(r.state)
    ensures op.ConnectOp? ==> r.state == s
  {
    match op
    case ConnectOp(sid) => Connect(s, sid)
    case SendLocationOp(sid, data, now) => LocationUpdate(s, sid, data, now)
    case DisconnectOp(sid) => Disconnect(s, sid)
  }

  /** Handlers run one after another, each to completion. */
  function Run(s: ServerState, ops: seq<ServerOp>): (r: Step)
    ensures RegistryInvariant(s) ==> RegistryInvariant(r.state)
    decreases |ops|
  {
    if ops == [] then Step(s, [])
    else
      var first := Apply(s, ops[0]);
      var rest := Run(first.state, ops[1..]);
      Step(rest.state, first.events + rest.events)
  }

  /** The scenario of a participant who reconnects: `u` is written by `c1`,
      then by `c2`; `c1`'s disconnect keeps `u` and emits nothing, `c2`'s
      removes it and announces it. */
  lemma ReconnectScenario(u: string, name: string, lat: real, lng: real, t1: int, t2: int)
    requires u != ""
    ensures var s0 := ServerState(map[], [], true);
      var d := LocationData(u, name, lat, lng);
      var s1 := Run(s0, [SendLocationOp("c1", d, t1), SendLocationOp("c2", d, t2)]).state;
      var r1 := Disconnect(s1, "c1");
      var r2 := Disconnect(r1.state, "c2");
      && r1.events == [] && u in r1.state.users
      && r2.events == [Event(AllClients, UserDisconnected(u))] && r2.state.users == map[]
  {
    var d := LocationData(u, name, lat, lng);
    var b := ServerState(map[u := NewRecord("c2", d, t2)], [u], true);
    TwoUpdatesFromEmpty(u, d, t1, t2);
    assert Owns(b.users, u, "c2") && !Owns(b.users, u, "c1");
    assert FindOwned(b.users, b.keys, "c1") == None;
    var r1 := Disconnect(b, "c1");
    assert r1 == Step(b, []);
    assert FindOwned(b.users, b.keys, "c2") == Some(u);
  }

  /** `c1` then `c2` send a location for the same `u` to an empty registry:
      one key, holding `c2`'s record. */
  lemma TwoUpdatesFromEmpty(u: string, d: LocationData, t1: int, t2: int)
    requires d.id == u
    ensures Run(ServerState(map[], [], true), [SendLocationOp("c1", d, t1), SendLocationOp("c2", d, t2)]).state
      == ServerState(map[u := NewRecord("c2", d, t2)], [u], true)
  {
    var s0 := ServerState(map[], [], true);
    var ops := [SendLocationOp("c1", d, t1), SendLocationOp("c2", d, t2)];
    var a := LocationUpdate(s0, "c1", d, t1).state;
    assert a == ServerState(map[u := NewRecord("c1", d, t1)], [u], true);
    var b := LocationUpdate(a, "c2", d, t2).state;
    assert b.users == map[u := NewRecord("c2", d, t2)];
    assert ops[1..] == [SendLocationOp("c2", d, t2)];
    assert ops[1..][1..] == [];
    assert Run(a, ops[1..]).state == b;
  }

  /** The live `SocketService` object together with the module-level `users`. */
  class SocketService {
    var users: map<string, UserRecord>
    var keys: seq<string>
    var io: bool
    var emitted: seq<Event>

    function State(): ServerState
      reads this
    {
      ServerState(users, keys, io)
    }

    ghost predicate Valid()
      reads this
    {
      RegistryInvariant(State())
    }

    /** `users = {}` at load time and `this.io = null` in the constructor. */
    constructor ()
      ensures Valid()
      ensures State() == EmptyState() && emitted == []
    {
      users := map[];
      keys := [];
      io := false;
      emitted := [];
    }

    /** `init(io)`: attach (or, with a falsy argument, detach) the server. */
    method Init(attach: bool)
      modifies this`io
      ensures io == attach
    {
      io := attach;
    }

    method HandleConnection(socketId: string)
      requires Valid()
      modifies this`emitted
      ensures Valid()
      ensures State() == old(State())
      ensures emitted == old(emitted) + Connect(old(State()), socketId).events
    {
      emitted := emitted + [Event(OnlySocket(socketId), CurrentUsers(Entries(users, keys)))];
    }

    method HandleLocationUpdate(socketId: string, data: LocationData, now: int)
      requires Valid()
      modifies this`users, this`keys, this`emitted
      ensures Valid()
      ensures State() == LocationUpdate(old(State()), socketId, data, now).state
      ensures emitted == old(emitted) + LocationUpdate(old(State()), socketId, data, now).events
    {
      ghost var step := LocationUpdate(State(), socketId, data, now);
      if data.id !in users {
        keys := keys + [data.id];
      }
      users := users[data.id := NewRecord(socketId, data, now)];
      if io {
        emitted := emitted + [Event(AllClients, ReceiveLocation(users[data.id]))];
      }
      assert State() == step.state;
    }

    method HandleDisconnect(socketId: string)
      requires Valid()
      modifies this`users, this`keys, this`emitted
      ensures Valid()
      ensures State() == Disconnect(old(State()), socketId).state
      ensures emitted == old(emitted) + Disconnect(old(State()), socketId).events
    {
      var userId := FindOwned(users, keys, socketId);
      if userId.Some? && userId.value != "" {
        users := users - {userId.value};
        keys := RemoveKey(keys, userId.value);
        if io {
          emitted := emitted + [Event(AllClients, UserDisconnected(userId.value))];
        }
      }
    }
  }
}
