/** The browser-side mirror of the registry: the `localUserData` and
    `markers` dictionaries of the tracking page and its three socket
    handlers, with each Leaflet marker reduced to the position it shows.
    The page ships twice, as frontend/app.js and public/app.js; their
    handler code is the same line for line, so one model serves both. */
module Client {
  import opened Text
  import opened Presence

  /** What a marker shows once popups and map layers are abstracted away. */
  datatype Position = Position(lat: real, lng: real)

  datatype ClientState = ClientState(localUserData: map<string, UserRecord>, markers: map<string, Position>)

  function PositionOf(r: UserRecord): Position {
    Position(r.lat, r.lng)
  }

  /** One marker per known participant, each at that participant's position. */
  function MarkerView(data: map<string, UserRecord>): (m: map<string, Position>)
    ensures m.Keys == data.Keys
    ensures forall k :: k in data ==> m[k] == PositionOf(data[k])
  {
    map k | k in data :: PositionOf(data[k])
  }

  /** The page's markers agree with its data: same keys, right positions. */
  predicate Consistent(c: ClientState) {
    c.markers == MarkerView(c.localUserData)
  }

  function EmptyClient(): ClientState {
    ClientState(map[], map[])
  }

  /** `updateMarker(data)`: moving an existing marker and creating a new
      one both leave a marker for `data.id` at the record's position. */
  function PlaceMarker(markers: map<string, Position>, data: UserRecord): (m: map<string, Position>)
    ensures m.Keys == markers.Keys + {data.id}
    ensures m[data.id] == Position(data.lat, data.lng)
    ensures forall k :: k in markers && k != data.id ==> m[k] == markers[k]
  {
    markers[data.id := PositionOf(data)]
  }

  /** `removeMarker(userId)`: drop the marker if there is one. */
  function RemoveMarkerFrom(markers: map<string, Position>, userId: string): (m: map<string, Position>)
    ensures m.Keys == markers.Keys - {userId}
    ensures forall k :: k in m ==> m[k] == markers[k]
  {
    if userId in markers then markers - {userId} else markers
  }

  /** The object socket.io hands to the `current-users` handler: the
      decoded properties, a later duplicate key overriding an earlier one. */
  function ToMap(entries: seq<Entry>): (m: map<string, UserRecord>)
    ensures forall i :: 0 <= i < |entries| ==> entries[i].key in m
    ensures entries != [] ==> m[entries[|entries| - 1].key] == entries[|entries| - 1].record
    decreases |entries|
  {
    if entries == [] then map[]
    else
      var e := entries[|entries| - 1];
      ToMap(entries[..|entries| - 1])[e.key := e.record]
  }

  /** The decoded snapshot has exactly the listed keys. */
  lemma {:induction false} ToMapKeys(entries: seq<Entry>)
    ensures ToMap(entries).Keys == set i | 0 <= i < |entries| :: entries[i].key
    decreases |entries|
  {
    if entries != [] {
      var init := entries[..|entries| - 1];
      ToMapKeys(init);
      assert forall i :: 0 <= i < |init| ==> init[i] == entries[i];
    }
  }

  /** `Object.values(users)` of the decoded snapshot. This lists one record
      per entry, which is `Object.values` only while the entry keys are
      distinct; the server's snapshots always are (`EntriesOfWellFormed`). */
  function Records(entries: seq<Entry>): (rs: seq<UserRecord>)
    ensures |rs| == |entries|
    ensures forall i :: 0 <= i < |entries| ==> rs[i] == entries[i].record
  {
    seq(|entries|, i requires 0 <= i < |entries| => entries[i].record)
  }

  /** `updateMarker` applied to each record in turn, in list order. */
  function PlaceAll(markers: map<string, Position>, records: seq<UserRecord>): (m: map<string, Position>)
    ensures markers.Keys <= m.Keys
    ensures forall i :: 0 <= i < |records| ==> records[i].id in m
    ensures records != [] ==> m[records[|records| - 1].id] == PositionOf(records[|records| - 1])
    decreases |records|
  {
    if records == [] then markers
    else PlaceMarker(PlaceAll(markers, records[..|records| - 1]), records[|records| - 1])
  }

  /** The markers the `!users[id]` sweep keeps: those the snapshot lists. */
  function KeepListed(markers: map<string, Position>, users: map<string, UserRecord>): (m: map<string, Position>)
    ensures m.Keys == markers.Keys * users.Keys
    ensures forall k :: k in m ==> m[k] == markers[k]
  {
    map k | k in markers && k in users :: markers[k]
  }

  /** A snapshot stores each record under its own id. */
  predicate WellKeyed(entries: seq<Entry>) {
    forall i :: 0 <= i < |entries| ==> entries[i].record.id == entries[i].key
  }

  /** What one handler does to the page's state. */
  function Receive(c: ClientState, msg: Message): (r: ClientState)
    ensures msg.CurrentUsers? ==> r.localUserData == ToMap(msg.entries)
    ensures msg.ReceiveLocation? ==> r.localUserData == c.localUserData[msg.record.id := msg.record]
    ensures msg.UserDisconnected? ==> r.localUserData == c.localUserData - {msg.id}
    ensures msg.UserDisconnected? && msg.id !in c.localUserData ==> r == c
  {
    match msg
    case CurrentUsers(entries) =>
      var users := ToMap(entries);
      ClientState(users, PlaceAll(KeepListed(c.markers, users), Records(entries)))
    case ReceiveLocation(data) =>
      ClientState(c.localUserData[data.id := data], PlaceMarker(c.markers, data))
    case UserDisconnected(userId) =>
      if userId in c.localUserData then
        ClientState(c.localUserData - {userId}, RemoveMarkerFrom(c.markers, userId))
      else c
  }

  /** Placing the markers of a well-keyed snapshot over `m` gives `m`
      overridden by exactly the snapshot's markers. */
  lemma {:induction false} PlaceAllOverrides(m: map<string, Position>, entries: seq<Entry>)
    requires WellKeyed(entries)
    ensures PlaceAll(m, Records(entries)) == m + MarkerView(ToMap(entries))
    decreases |entries|
  {
    if entries != [] {
      var n := |entries| - 1;
      var init := entries[..n];
      var e := entries[n];
      var rs := Records(entries);
      assert rs[..n] == Records(init);
      assert WellKeyed(init) by {
        assert forall i :: 0 <= i < |init| ==> init[i] == entries[i];
      }
      PlaceAllOverrides(m, init);
      var before := ToMap(init);
      calc {
        PlaceAll(m, rs);
        PlaceMarker(PlaceAll(m, Records(init)), e.record);
        (m + MarkerView(before))[e.key := PositionOf(e.record)];
        { UnionThenUpdate(m, MarkerView(before), e.key, PositionOf(e.record)); }
        m + MarkerView(before)[e.key := PositionOf(e.record)];
        { MarkerViewUpdate(before, e.key, e.record); }
        m + MarkerView(ToMap(entries));
      }
    }
  }

  lemma UnionThenUpdate(m: map<string, Position>, x: map<string, Position>, k: string, p: Position)
    ensures (m + x)[k := p] == m + x[k := p]
  {
  }

  lemma MarkerViewUpdate(data: map<string, UserRecord>, k: string, r: UserRecord)
    ensures MarkerView(data[k := r]) == MarkerView(data)[k := PositionOf(r)]
  {
  }

  /** After `current-users` the page holds exactly the snapshot: every old
      entry is gone, and when the snapshot is well keyed there is one
      marker per listed participant, at its position, and no other. */
  lemma SnapshotReplacesState(c: ClientState, entries: seq<Entry>)
    ensures Receive(c, CurrentUsers(entries)).localUserData == ToMap(entries)
    ensures WellKeyed(entries) ==> Receive(c, CurrentUsers(entries)) == ClientState(ToMap(entries), MarkerView(ToMap(entries)))
  {
    if WellKeyed(entries) {
      var users := ToMap(entries);
      var kept := KeepListed(c.markers, users);
      PlaceAllOverrides(kept, entries);
      assert kept + MarkerView(users) == MarkerView(users);
    }
  }

  /** Without well-keyedness the two dictionaries can disagree: a snapshot
      that stores a record for "b" under the key "a" leaves data under "a"
      and a marker under "b". */
  lemma MisKeyedSnapshotSplitsKeys(r: UserRecord)
    requires r.id == "b"
    ensures var c := Receive(EmptyClient(), CurrentUsers([Entry("a", r)]));
      c.localUserData.Keys == {"a"} && c.markers.Keys == {"b"}
  {
    var es := [Entry("a", r)];
    assert es[..0] == [];
    assert ToMap(es) == map["a" := r];
    assert Records(es) == [r];
    assert Records(es)[..0] == [];
    var kept := KeepListed(map[], ToMap(es));
    assert kept == map[];
    assert PlaceAll(kept, [r]) == PlaceMarker(PlaceAll(kept, []), r);
    assert PlaceAll(kept, [r]) == map["b" := PositionOf(r)];
  }

  /** `receive-location` overwrites the one entry for `data.id`. */
  lemma ReceiveLocationTouchesOneEntry(c: ClientState, data: UserRecord)
    ensures var c' := Receive(c, ReceiveLocation(data));
      && c'.localUserData.Keys == c.localUserData.Keys + {data.id}
      && c'.localUserData[data.id] == data
      && (forall k :: k in c.localUserData && k != data.id ==> c'.localUserData[k] == c.localUserData[k])
      && c'.markers.Keys == c.markers.Keys + {data.id}
      && c'.markers[data.id] == PositionOf(data)
      && (forall k :: k in c.markers && k != data.id ==> c'.markers[k] == c.markers[k])
  {
  }

  /** `user-disconnected` removes a known id from both dictionaries; an
      unknown id changes nothing, so a repeated delivery has no effect. */
  lemma UserDisconnectedIsIdempotent(c: ClientState, userId: string)
    ensures var c' := Receive(c, UserDisconnected(userId));
      && userId !in c'.localUserData
      && (userId in c.localUserData ==>
            && c'.localUserData == c.localUserData - {userId}
            && c'.markers == RemoveMarkerFrom(c.markers, userId)
            && userId !in c'.markers)
      && (userId !in c.localUserData ==> c' == c)
      && Receive(c', UserDisconnected(userId)) == c'
  {
  }

  /** The markers keep agreeing with the data through every handler, as
      long as snapshots are well keyed (the server's registry always is). */
  lemma ReceivePreservesConsistency(c: ClientState, msg: Message)
    requires msg.CurrentUsers? ==> WellKeyed(msg.entries)
    requires !msg.CurrentUsers? ==> Consistent(c)
    ensures Consistent(Receive(c, msg))
    ensures Receive(c, msg).markers.Keys == Receive(c, msg).localUserData.Keys
  {
    match msg
    case CurrentUsers(entries) =>
      SnapshotReplacesState(c, entries);
    case ReceiveLocation(data) =>
      assert MarkerView(c.localUserData[data.id := data]) == c.markers[data.id := PositionOf(data)];
    case UserDisconnected(userId) =>
      if userId in c.localUserData {
        assert MarkerView(c.localUserData - {userId}) == c.markers - {userId};
      }
  }

  /** The sidebar as `renderUserList` fills it, without the HTML. */
  datatype Sidebar = Sidebar(countText: string, emptyMessage: bool, initials: map<string, char>)

  const CountPrefix: string := "Active Users: "

  /** `Active Users: ${users.length}`. */
  function CountText(n: nat): (t: string)
    ensures StartsWith(t, CountPrefix)
    ensures AllDigits(t[|CountPrefix|..]) && |t| > |CountPrefix|
  {
    CountPrefix + Decimal(n)
  }

  /** The count shown can be read back: it is the number rendered. */
  lemma CountTextReadsBack(n: nat)
    ensures var digits := CountText(n)[|CountPrefix|..];
      |digits| >= 1 && AllDigits(digits) && ParseDecimal(digits) == n
  {
    assert CountText(n)[|CountPrefix|..] == Decimal(n);
    ParseDecimalOfDecimal(n);
  }

  /** The avatar letter: the upper-cased first character of a non-empty
      name, and '?' for an empty one. */
  function Initial(name: string): (c: char)
    ensures !IsAsciiLower(c)
    ensures name == "" ==> c == '?'
    ensures name != "" ==> c == AsciiUpper(name[0])
  {
    if name == "" then '?' else AsciiUpper(name[0])
  }

  /** Names that differ only in ASCII case get the same avatar letter. */
  lemma InitialIgnoresCase(name: string)
    ensures Initial(UpperString(name)) == Initial(name)
  {
  }

  /** `renderUserList`: the count line, the empty-list placeholder, and
      one avatar initial per entry. */
  function RenderUserList(data: map<string, UserRecord>): (s: Sidebar)
    ensures s.countText == CountText(|data|)
    ensures s.emptyMessage <==> data == map[]
    ensures s.initials.Keys == data.Keys
    ensures forall k :: k in data ==> s.initials[k] == Initial(data[k].name)
  {
    if |data| == 0 then Sidebar(CountText(0), true, map[])
    else Sidebar(CountText(|data|), false, map k | k in data :: Initial(data[k].name))
  }

  /** One loaded tracking page. */
  class ClientMirror {
    var localUserData: map<string, UserRecord>
    var markers: map<string, Position>

    function State(): ClientState
      reads this
    {
      ClientState(localUserData, markers)
    }

    /** `const markers = {}` and `const localUserData = {}`. */
    constructor ()
      ensures State() == EmptyClient()
      ensures Consistent(State())
    {
      localUserData := map[];
      markers := map[];
    }

    method UpdateMarker(data: UserRecord)
      modifies this`markers
      ensures markers == PlaceMarker(old(markers), data)
    {
      // Both branches of the source (move, or create and add) leave the same position.
      markers := markers[data.id := PositionOf(data)];
    }

    method RemoveMarker(userId: string)
      modifies this`markers
      ensures markers == RemoveMarkerFrom(old(markers), userId)
    {
      if userId in markers {
        markers := markers - {userId};
      }
    }

    /** The `current-users` handler. */
    method OnCurrentUsers(entries: seq<Entry>)
      modifies this
      ensures State() == Receive(old(State()), CurrentUsers(entries))
    {
      var users := ToMap(entries);
      ClearLocalUserData();
      // copy every property of the snapshot into the emptied dictionary
      localUserData := localUserData + users;
      SweepMarkers(users);
      PlaceSnapshotMarkers(entries);
    }

    /** Empties `localUserData` by deleting its keys one at a time. */
    method ClearLocalUserData()
      modifies this`localUserData
      ensures localUserData == map[]
    {
      while localUserData != map[]
        decreases localUserData.Keys
      {
        var userId :| userId in localUserData;
        localUserData := localUserData - {userId};
      }
    }

    /** Visits every marker key once and removes the markers whose id the
        snapshot does not list. */
    method SweepMarkers(users: map<string, UserRecord>)
      modifies this`markers
      ensures markers == KeepListed(old(markers), users)
    {
      var pending := markers.Keys;
      while pending != {}
        invariant pending <= old(markers).Keys
        invariant markers.Keys == old(markers).Keys * (pending + users.Keys)
        invariant forall k :: k in markers ==> markers[k] == old(markers)[k]
        decreases pending
      {
        var id :| id in pending;
        if id !in users {
          RemoveMarker(id);
        }
        pending := pending - {id};
      }
    }

    /** Places or moves one marker per record of the snapshot, in record
        order. */
    method PlaceSnapshotMarkers(entries: seq<Entry>)
      modifies this`markers
      ensures markers == PlaceAll(old(markers), Records(entries))
    {
      ghost var records := Records(entries);
      var i := 0;
      while i < |entries|
        invariant 0 <= i <= |entries|
        invariant markers == PlaceAll(old(markers), records[..i])
      {
        assert records[..i + 1][..i] == records[..i];
        UpdateMarker(entries[i].record);
        i := i + 1;
      }
      assert records[..|entries|] == records;
    }

    /** The `receive-location` handler. */
    method OnReceiveLocation(data: UserRecord)
      modifies this
      ensures State() == Receive(old(State()), ReceiveLocation(data))
    {
      localUserData := localUserData[data.id := data];
      UpdateMarker(data);
    }

    /** The `user-disconnected` handler. */
    method OnUserDisconnected(userId: string)
      modifies this
      ensures State() == Receive(old(State()), UserDisconnected(userId))
    {
      if userId in localUserData {
        localUserData := localUserData - {userId};
        RemoveMarker(userId);
      }
    }
  }
}
