/** The group service: random six-character join codes, and the decisions
    `createGroup`, `joinGroup` and `getUserGroup` make over the `groups`,
    `group_members` and `users` tables. The tables are in-memory values;
    each database call becomes a lookup or an append, and the outcome of
    each insert the code checks (an error or not) is a parameter. */
module Groups {
  import opened Wrappers
  import opened Text

  const Chars: string := "ABCDEFGHIJKLMNOPQRSTUVWXYZ0123456789"
  const CodeLength: nat := 6

  predicate IsCodeChar(c: char) {
    'A' <= c <= 'Z' || '0' <= c <= '9'
  }

  predicate IsGroupCode(code: string) {
    |code| == CodeLength && forall i :: 0 <= i < |code| ==> IsCodeChar(code[i])
  }

  /** Six random draws, each an index into the alphabet. */
  predicate ValidDraws(draws: seq<int>) {
    |draws| == CodeLength && forall i :: 0 <= i < |draws| ==> 0 <= draws[i] < |Chars|
  }

  /** Where a code character sits in the alphabet. */
  function CharIndex(c: char): (d: int)
    requires IsCodeChar(c)
    ensures 0 <= d < |Chars| && Chars[d] == c
  {
    CharsLayout();
    if 'A' <= c <= 'Z' then (c as int) - ('A' as int) else 26 + (c as int) - ('0' as int)
  }

  /** The alphabet in closed form: the capitals at positions 0-25, the
      digits at 26-35. */
  lemma CharsLayout()
    ensures |Chars| == 36
    ensures forall d :: 0 <= d < 26 ==> Chars[d] as int == 'A' as int + d
    ensures forall d :: 26 <= d < 36 ==> Chars[d] as int == '0' as int + (d - 26)
  {
    var letters, digits := "ABCDEFGHIJKLMNOPQRSTUVWXYZ", "0123456789";
    assert Chars == letters + digits;
    assert forall d :: 0 <= d < 26 ==> letters[d] as int == 'A' as int + d;
    assert forall d :: 0 <= d < 10 ==> digits[d] as int == '0' as int + d;
  }

  lemma AlphabetIndex(d: int)
    requires 0 <= d < |Chars|
    ensures IsCodeChar(Chars[d]) && CharIndex(Chars[d]) == d
  {
    CharsLayout();
  }

  /** `generateGroupCode`, with the six random draws supplied. */
  method GenerateGroupCode(draws: seq<int>) returns (result: string)
    requires ValidDraws(draws)
    ensures IsGroupCode(result)
    ensures forall i :: 0 <= i < CodeLength ==> result[i] == Chars[draws[i]]
  {
    result := "";
    for i := 0 to CodeLength
      invariant |result| == i
      invariant forall j :: 0 <= j < i ==> result[j] == Chars[draws[j]] && IsCodeChar(result[j])
    {
      AlphabetIndex(draws[i]);
      result := result + [Chars[draws[i]]];
    }
  }

  /** The code determines the draws that made it: reading each character's
      alphabet position back gives the draws. */
  lemma CodeDeterminesDraws(draws: seq<int>, code: string)
    requires ValidDraws(draws)
    requires |code| == CodeLength && forall i :: 0 <= i < CodeLength ==> code[i] == Chars[draws[i]]
    ensures IsGroupCode(code)
    ensures forall i :: 0 <= i < CodeLength ==> CharIndex(code[i]) == draws[i]
  {
    forall i | 0 <= i < CodeLength
      ensures IsCodeChar(code[i]) && CharIndex(code[i]) == draws[i]
    {
      AlphabetIndex(draws[i]);
    }
  }

  datatype GroupRow = GroupRow(id: string, name: string, code: string, adminId: string)
  datatype MemberRow = MemberRow(groupId: string, userId: string)
  /** The columns of a `users` row these services read or write. */
  datatype UserRow = UserRow(name: string, currentGroupId: Option<string>, profilePicturePath: Option<string>)

  /** `users` is keyed by its primary key `id`. */
  datatype Db = Db(groups: seq<GroupRow>, members: seq<MemberRow>, users: map<string, UserRow>)

  /** `.single()`: a row only when exactly one row matched. */
  function Single<T>(rows: seq<T>): (r: Option<T>)
    ensures r.Some? <==> |rows| == 1
    ensures r.Some? ==> r.value == rows[0]
  {
    if |rows| == 1 then Some(rows[0]) else None
  }

  /** The `groups` columns the services filter on. */
  datatype GroupColumn = IdColumn | CodeColumn

  function ColumnValue(g: GroupRow, column: GroupColumn): string {
    match column
    case IdColumn => g.id
    case CodeColumn => g.code
  }

  /** `from('groups').select(…).eq(column, value)`: the matching rows, in table order. */
  function GroupsWhere(groups: seq<GroupRow>, column: GroupColumn, value: string): (r: seq<GroupRow>)
    ensures forall g :: g in r <==> g in groups && ColumnValue(g, column) == value
    decreases |groups|
  {
    if groups == [] then []
    else
      var init := groups[..|groups| - 1];
      var last := groups[|groups| - 1];
      GroupsWhere(init, column, value) + (if ColumnValue(last, column) == value then [last] else [])
  }

  /** The lookup returns each matching row as often as the table holds it,
      and no other row. */
  lemma {:induction false} GroupsWhereCount(groups: seq<GroupRow>, column: GroupColumn, value: string)
    ensures forall g :: multiset(GroupsWhere(groups, column, value))[g]
                     == if ColumnValue(g, column) == value then multiset(groups)[g] else 0
    decreases |groups|
  {
    if groups != [] {
      var init := groups[..|groups| - 1];
      assert groups == init + [groups[|groups| - 1]];
      GroupsWhereCount(init, column, value);
    }
  }

  /** The lookup keeps table order: filtering two stretches of the table in
      turn is filtering the whole. */
  lemma {:induction false} GroupsWhereAppend(a: seq<GroupRow>, b: seq<GroupRow>, column: GroupColumn, value: string)
    ensures GroupsWhere(a + b, column, value) == GroupsWhere(a, column, value) + GroupsWhere(b, column, value)
    decreases |b|
  {
    if b == [] {
      assert a + b == a;
    } else {
      var init, last := b[..|b| - 1], b[|b| - 1];
      var tail := if ColumnValue(last, column) == value then [last] else [];
      assert (a + b)[..|a + b| - 1] == a + init;
      assert (a + b)[|a + b| - 1] == last;
      assert GroupsWhere(a + b, column, value) == GroupsWhere(a + init, column, value) + tail;
      assert GroupsWhere(b, column, value) == GroupsWhere(init, column, value) + tail;
      GroupsWhereAppend(a, init, column, value);
      assert GroupsWhere(a, column, value) + GroupsWhere(init, column, value) + tail
          == GroupsWhere(a, column, value) + (GroupsWhere(init, column, value) + tail);
    }
  }

  /** The `group_members` rows of one user in one group. */
  function Memberships(members: seq<MemberRow>, groupId: string, userId: string): (r: seq<MemberRow>)
    ensures forall m :: m in r <==> m in members && m == MemberRow(groupId, userId)
    ensures |r| == multiset(members)[MemberRow(groupId, userId)]
    ensures forall i :: 0 <= i < |r| ==> r[i] == MemberRow(groupId, userId)
    decreases |members|
  {
    if members == [] then []
    else
      var init := members[..|members| - 1];
      var last := members[|members| - 1];
      assert members == init + [last];
      Memberships(init, groupId, userId) + (if last == MemberRow(groupId, userId) then [last] else [])
  }

  /** The `group_members` rows of one group, in table order. */
  function MembersOfGroup(members: seq<MemberRow>, groupId: string): (r: seq<MemberRow>)
    ensures |r| <= |members|
    ensures forall m :: m in r <==> m in members && m.groupId == groupId
    decreases |members|
  {
    if members == [] then []
    else
      var init := members[..|members| - 1];
      var last := members[|members| - 1];
      MembersOfGroup(init, groupId) + (if last.groupId == groupId then [last] else [])
  }

  /** The members query returns each of the group's rows as often as the
      table holds it, and no row of another group. */
  lemma {:induction false} MembersOfGroupCount(members: seq<MemberRow>, groupId: string)
    ensures forall m :: multiset(MembersOfGroup(members, groupId))[m]
                     == if m.groupId == groupId then multiset(members)[m] else 0
    decreases |members|
  {
    if members != [] {
      var init := members[..|members| - 1];
      assert members == init + [members[|members| - 1]];
      MembersOfGroupCount(init, groupId);
    }
  }

  /** The members query keeps table order: filtering two stretches of the
      table in turn is filtering the whole. */
  lemma {:induction false} MembersOfGroupAppend(a: seq<MemberRow>, b: seq<MemberRow>, groupId: string)
    ensures MembersOfGroup(a + b, groupId) == MembersOfGroup(a, groupId) + MembersOfGroup(b, groupId)
    decreases |b|
  {
    if b == [] {
      assert a + b == a;
    } else {
      var init, last := b[..|b| - 1], b[|b| - 1];
      var tail := if last.groupId == groupId then [last] else [];
      assert (a + b)[..|a + b| - 1] == a + init;
      assert (a + b)[|a + b| - 1] == last;
      assert MembersOfGroup(a + b, groupId) == MembersOfGroup(a + init, groupId) + tail;
      assert MembersOfGroup(b, groupId) == MembersOfGroup(init, groupId) + tail;
      MembersOfGroupAppend(a, init, groupId);
      assert MembersOfGroup(a, groupId) + MembersOfGroup(init, groupId) + tail
          == MembersOfGroup(a, groupId) + (MembersOfGroup(init, groupId) + tail);
    }
  }

  /** The code lookup of `createGroup` returned a row: exactly one group
      carries the code. */
  predicate CodeTaken(groups: seq<GroupRow>, code: string)
    ensures CodeTaken(groups, code) ==> exists i :: 0 <= i < |groups| && groups[i].code == code
  {
    var rows := GroupsWhere(groups, CodeColumn, code);
    assert |rows| == 1 ==> rows[0] in rows && ColumnValue(rows[0], CodeColumn) == rows[0].code;
    Single(rows).Some?
  }

  /** The retry loop of `createGroup`: draw codes until the lookup reports
      one as free. `candidates` are the successive draws; `None` means they
      ran out while the loop would still be retrying. */
  method PickUniqueCode(groups: seq<GroupRow>, candidates: seq<seq<int>>) returns (found: Option<string>)
    requires |candidates| >= 1
    requires forall i :: 0 <= i < |candidates| ==> ValidDraws(candidates[i])
    ensures found.Some? ==> IsGroupCode(found.value) && !CodeTaken(groups, found.value)
    ensures found.Some? ==> exists i :: 0 <= i < |candidates| && found.value == CodeOf(candidates[i])
                              && forall j :: 0 <= j < i ==> CodeTaken(groups, CodeOf(candidates[j]))
    ensures found.None? ==> forall i :: 0 <= i < |candidates| ==> CodeTaken(groups, CodeOf(candidates[i]))
  {
    var code := GenerateGroupCode(candidates[0]);
    CodeOfMatches(candidates[0], code);
    var isUnique := false;
    var i := 1;
    while !isUnique
      invariant 1 <= i <= |candidates|
      invariant code == CodeOf(candidates[i - 1]) && IsGroupCode(code)
      invariant forall j :: 0 <= j < i - 1 ==> CodeTaken(groups, CodeOf(candidates[j]))
      invariant isUnique ==> !CodeTaken(groups, code)
      decreases |candidates| - i, !isUnique
    {
      var data := Single(GroupsWhere(groups, CodeColumn, code));
      assert data.None? <==> !CodeTaken(groups, code);
      if data.None? {
        isUnique := true;
      } else {
        if i == |candidates| {
          return None;
        }
        code := GenerateGroupCode(candidates[i]);
        CodeOfMatches(candidates[i], code);
        i := i + 1;
      }
    }
    found := Some(code);
  }

  /** The code a sequence of draws spells. */
  function CodeOf(draws: seq<int>): (code: string)
    requires ValidDraws(draws)
    ensures |code| == CodeLength
  {
    seq(CodeLength, i requires 0 <= i < CodeLength => Chars[draws[i]])
  }

  lemma CodeOfMatches(draws: seq<int>, code: string)
    requires ValidDraws(draws)
    requires |code| == CodeLength && forall i :: 0 <= i < CodeLength ==> code[i] == Chars[draws[i]]
    ensures code == CodeOf(draws)
  {
  }

  /** The update of one user's `current_group_id`, awaited without an
      error check: `applied` false stands for an update that failed. */
  function SetCurrentGroup(users: map<string, UserRow>, userId: string, groupId: string, applied: bool): (r: map<string, UserRow>)
    ensures r.Keys == users.Keys
    ensures forall k :: k in users && (k != userId || !applied) ==> r[k] == users[k]
    ensures applied && userId in users ==> r[userId] == users[userId].(currentGroupId := Some(groupId))
  {
    if applied && userId in users then users[userId := users[userId].(currentGroupId := Some(groupId))]
    else users
  }

  datatype Outcome<T> = Outcome(result: Result<T>, db: Db)

  /** `createGroup` once a free code is in hand: insert the group (the
      database assigns `newId`), add the admin as a member, point the
      admin's `current_group_id` at it. An insert error throws its message
      and stops there; nothing is rolled back. */
  function CreateWithCode(db: Db, userId: string, groupName: string, code: string, newId: string,
                          groupError: Option<string>, memberError: Option<string>, userUpdated: bool): (o: Outcome<GroupRow>)
    ensures groupError.Some? ==> o == Outcome(Err(groupError.value), db)
    ensures groupError.None? && memberError.Some? ==>
      && o.result == Err(memberError.value)
      && o.db == db.(groups := db.groups + [GroupRow(newId, groupName, code, userId)])
    ensures groupError.None? && memberError.None? ==>
      && o.result == Ok(GroupRow(newId, groupName, code, userId))
      && o.db.groups == db.groups + [o.result.value]
      && o.db.members == db.members + [MemberRow(newId, userId)]
      && o.db.users == SetCurrentGroup(db.users, userId, newId, userUpdated)
  {
    if groupError.Some? then Outcome(Err(groupError.value), db)
    else
      var group := GroupRow(newId, groupName, code, userId);
      var db1 := db.(groups := db.groups + [group]);
      if memberError.Some? then Outcome(Err(memberError.value), db1)
      else
        var db2 := db1.(members := db1.members + [MemberRow(group.id, userId)]);
        Outcome(Ok(group), db2.(users := SetCurrentGroup(db2.users, userId, group.id, userUpdated)))
  }

  /** `createGroup`: the retry loop, then the inserts. `None` is returned
      only when the supplied draws run out while every code was taken. */
  method CreateGroup(db: Db, userId: string, groupName: string, candidates: seq<seq<int>>, newId: string,
                     groupError: Option<string>, memberError: Option<string>, userUpdated: bool)
    returns (outcome: Option<Outcome<GroupRow>>)
    requires |candidates| >= 1
    requires forall i :: 0 <= i < |candidates| ==> ValidDraws(candidates[i])
    ensures outcome.Some? <==> exists i :: 0 <= i < |candidates| && !CodeTaken(db.groups, CodeOf(candidates[i]))
    ensures outcome.Some? ==> exists code ::
      && IsGroupCode(code) && !CodeTaken(db.groups, code)
      && outcome.value == CreateWithCode(db, userId, groupName, code, newId, groupError, memberError, userUpdated)
  {
    var code := PickUniqueCode(db.groups, candidates);
    if code.None? {
      return None;
    }
    outcome := Some(CreateWithCode(db, userId, groupName, code.value, newId, groupError, memberError, userUpdated));
  }

  /** What `select('id, name')` returns of a group. */
  datatype GroupRef = GroupRef(id: string, name: string)

  const InvalidCode: string := "Invalid Group Code"
  const AlreadyMember: string := "You are already in this group"

  /** `joinGroup`: look the upper-cased code up, refuse an existing member,
      add the membership, point `current_group_id` at the group. */
  function JoinGroup(db: Db, userId: string, groupCode: string, joinError: Option<string>, userUpdated: bool): (o: Outcome<GroupRef>)
    ensures var found := Single(GroupsWhere(db.groups, CodeColumn, UpperString(groupCode)));
      && (found.None? ==> o == Outcome(Err(InvalidCode), db))
      && (found.Some? && |Memberships(db.members, found.value.id, userId)| == 1 ==> o == Outcome(Err(AlreadyMember), db))
      && (found.Some? && |Memberships(db.members, found.value.id, userId)| != 1 ==>
            && (joinError.Some? ==> o == Outcome(Err(joinError.value), db))
            && (joinError.None? ==> o.result.Ok?))
      && (o.result.Ok? ==>
            && found.Some?
            && o.result.value == GroupRef(found.value.id, found.value.name)
            && o.db.groups == db.groups
            && o.db.members == db.members + [MemberRow(found.value.id, userId)]
            && o.db.users == SetCurrentGroup(db.users, userId, found.value.id, userUpdated))
      && (o.result.Err? ==> o.db == db)
  {
    var found := Single(GroupsWhere(db.groups, CodeColumn, UpperString(groupCode)));
    if found.None? then Outcome(Err(InvalidCode), db)
    else
      var group := found.value;
      var existing := Single(Memberships(db.members, group.id, userId));
      if existing.Some? then Outcome(Err(AlreadyMember), db)
      else if joinError.Some? then Outcome(Err(joinError.value), db)
      else
        var members := db.members + [MemberRow(group.id, userId)];
        Outcome(Ok(GroupRef(group.id, group.name)),
                db.(members := members, users := SetCurrentGroup(db.users, userId, group.id, userUpdated)))
  }

  lemma UpperStringIdempotent(s: string)
    ensures UpperString(UpperString(s)) == UpperString(s)
  {
  }

  /** Codes are matched without regard to (ASCII) case. */
  lemma JoinIgnoresCodeCase(db: Db, userId: string, groupCode: string, joinError: Option<string>, userUpdated: bool)
    ensures JoinGroup(db, userId, UpperString(groupCode), joinError, userUpdated)
         == JoinGroup(db, userId, groupCode, joinError, userUpdated)
  {
    UpperStringIdempotent(groupCode);
  }

  /** No user is listed twice in one group. */
  predicate NoDuplicateMemberships(members: seq<MemberRow>) {
    forall i, j :: 0 <= i < j < |members| ==> members[i] != members[j]
  }

  lemma {:induction false} MembershipsCount(members: seq<MemberRow>, groupId: string, userId: string)
    requires NoDuplicateMemberships(members)
    ensures |Memberships(members, groupId, userId)| <= 1
    ensures MemberRow(groupId, userId) !in members ==> |Memberships(members, groupId, userId)| == 0
    decreases |members|
  {
    if members != [] {
      var init := members[..|members| - 1];
      var last := members[|members| - 1];
      assert NoDuplicateMemberships(init);
      MembershipsCount(init, groupId, userId);
      if last == MemberRow(groupId, userId) {
        assert last !in init;
        assert |Memberships(init, groupId, userId)| == 0;
      }
    }
  }

  /** While the table holds no duplicate, `joinGroup`'s one-row check keeps
      it that way: a member is refused, anyone else is added once. */
  lemma JoinKeepsMembershipsUnique(db: Db, userId: string, groupCode: string, joinError: Option<string>, userUpdated: bool)
    requires NoDuplicateMemberships(db.members)
    ensures NoDuplicateMemberships(JoinGroup(db, userId, groupCode, joinError, userUpdated).db.members)
  {
    var o := JoinGroup(db, userId, groupCode, joinError, userUpdated);
    var found := Single(GroupsWhere(db.groups, CodeColumn, UpperString(groupCode)));
    if o.result.Ok? {
      var row := MemberRow(found.value.id, userId);
      MembershipsCount(db.members, found.value.id, userId);
      assert row !in db.members;
    }
  }

  /** The check is only "exactly one row": once a pair is listed twice,
      joining again adds a third row. */
  lemma DuplicatedMembershipIsNotRefused(g: GroupRow, userId: string)
    ensures var db := Db([g], [MemberRow(g.id, userId), MemberRow(g.id, userId)], map[]);
      var o := JoinGroup(db, userId, g.code, None, true);
      UpperString(g.code) == g.code ==> |o.db.members| == 3
  {
    var row := MemberRow(g.id, userId);
    var db := Db([g], [row, row], map[]);
    if UpperString(g.code) == g.code {
      assert [g][..0] == [];
      assert GroupsWhere([g], CodeColumn, g.code) == [g];
      var found := Single(GroupsWhere(db.groups, CodeColumn, UpperString(g.code)));
      assert found == Some(g);
      assert multiset(db.members) == multiset{row, row};
      var existing := Single(Memberships(db.members, g.id, userId));
      assert existing == None;
      var o := JoinGroup(db, userId, g.code, None, true);
      assert o.db.members == db.members + [row];
    }
  }

  /** A member as the `users(name, profilePicturePath)` join yields it;
      `None` where the referenced user row is missing. */
  datatype MemberProfile = MemberProfile(name: string, profilePicturePath: Option<string>)

  datatype GroupView = GroupView(group: GroupRow, members: seq<Option<MemberProfile>>)

  /** The TypeError thrown by `group.id` when no group row came back. */
  const NoGroupRow: string := "Cannot read properties of null (reading 'id')"

  /** The `users(name, profilePicturePath)` join of one membership row. */
  function ProfileOf(users: map<string, UserRow>, userId: string): (p: Option<MemberProfile>)
    ensures p.Some? <==> userId in users
    ensures p.Some? ==> p.value.name == users[userId].name && p.value.profilePicturePath == users[userId].profilePicturePath
  {
    if userId in users then Some(MemberProfile(users[userId].name, users[userId].profilePicturePath)) else None
  }

  function Profiles(users: map<string, UserRow>, rows: seq<MemberRow>): (ps: seq<Option<MemberProfile>>)
    ensures |ps| == |rows|
    ensures forall i :: 0 <= i < |rows| ==> ps[i] == ProfileOf(users, rows[i].userId)
  {
    seq(|rows|, i requires 0 <= i < |rows| => ProfileOf(users, rows[i].userId))
  }

  /** `getUserGroup`: `null` for an unknown user or one with no (or an
      empty) current group; otherwise the group with one member entry per
      membership row, in row order. */
  function GetUserGroup(db: Db, userId: string): (r: Result<Option<GroupView>>)
    ensures userId !in db.users ==> r == Ok(None)
    ensures userId in db.users && db.users[userId].currentGroupId in {None, Some("")} ==> r == Ok(None)
    ensures userId in db.users && db.users[userId].currentGroupId.Some? && db.users[userId].currentGroupId.value != "" ==>
      var lookup := Single(GroupsWhere(db.groups, IdColumn, db.users[userId].currentGroupId.value));
      && (lookup.None? ==> r == Err(NoGroupRow))
      && (lookup.Some? ==> r == Ok(Some(GroupView(lookup.value, Profiles(db.users, MembersOfGroup(db.members, lookup.value.id))))))
    ensures r.Ok? && r.value.Some? ==>
      && userId in db.users
      && db.users[userId].currentGroupId.Some?
      && var gid := db.users[userId].currentGroupId.value;
         var rows := MembersOfGroup(db.members, r.value.value.group.id);
         && r.value.value.group in db.groups
         && r.value.value.group.id == gid
         && |r.value.value.members| == |rows|
         && forall i :: 0 <= i < |rows| ==> r.value.value.members[i] == ProfileOf(db.users, rows[i].userId)
  {
    if userId !in db.users then Ok(None)
    else
      var current := db.users[userId].currentGroupId;
      if current.None? || current.value == "" then Ok(None)
      else
        var group := Single(GroupsWhere(db.groups, IdColumn, current.value));
        if group.None? then Err(NoGroupRow)
        else
          var rows := MembersOfGroup(db.members, group.value.id);
          Ok(Some(GroupView(group.value, Profiles(db.users, rows))))
  }

  /** No two groups share a join code. */
  predicate UniqueCodes(groups: seq<GroupRow>) {
    forall i, j :: 0 <= i < j < |groups| ==> groups[i].code != groups[j].code
  }

  /** A lookup no row matches returns nothing. */
  lemma {:induction false} NoGroupWhere(groups: seq<GroupRow>, column: GroupColumn, value: string)
    requires forall i :: 0 <= i < |groups| ==> ColumnValue(groups[i], column) != value
    ensures GroupsWhere(groups, column, value) == []
    decreases |groups|
  {
    if groups != [] {
      NoGroupWhere(groups[..|groups| - 1], column, value);
    }
  }

  lemma {:induction false} GroupsWithCodeCount(groups: seq<GroupRow>, code: string)
    requires UniqueCodes(groups)
    ensures |GroupsWhere(groups, CodeColumn, code)| <= 1
    decreases |groups|
  {
    if groups != [] {
      var init := groups[..|groups| - 1];
      assert UniqueCodes(init);
      if groups[|groups| - 1].code == code {
        NoGroupWhere(init, CodeColumn, code);
      } else {
        GroupsWithCodeCount(init, code);
      }
    }
  }

  /** While codes are unique, a code the lookup reports as free is used by
      no group, so `createGroup` keeps them unique. */
  lemma CreateKeepsCodesUnique(db: Db, userId: string, groupName: string, code: string, newId: string,
                                groupError: Option<string>, memberError: Option<string>, userUpdated: bool)
    requires UniqueCodes(db.groups) && !CodeTaken(db.groups, code)
    ensures UniqueCodes(CreateWithCode(db, userId, groupName, code, newId, groupError, memberError, userUpdated).db.groups)
  {
    GroupsWithCodeCount(db.groups, code);
    assert GroupsWhere(db.groups, CodeColumn, code) == [];
    forall i | 0 <= i < |db.groups|
      ensures db.groups[i].code != code
    {
      assert db.groups[i] in db.groups;
      assert ColumnValue(db.groups[i], CodeColumn) == db.groups[i].code;
    }
  }

  /** The lookup is `.single()`, so a code two groups already share reads
      as free and `createGroup` would hand it out a third time. */
  lemma SharedCodeReadsAsFree(a: GroupRow, b: GroupRow)
    requires a.code == b.code
    ensures !CodeTaken([a, b], a.code)
  {
    var gs := [a, b];
    assert gs[..1] == [a];
    assert [a][..0] == [];
    assert GroupsWhere([a], CodeColumn, a.code) == [a];
    assert GroupsWhere(gs, CodeColumn, a.code) == [a, b];
  }

  /** A successful `createGroup` whose `current_group_id` update applied,
      followed by `getUserGroup` for the admin, lists the new group with the
      admin among its members. */
  lemma CreatedGroupIsTheAdminsGroup(db: Db, userId: string, groupName: string, code: string, newId: string)
    requires userId in db.users
    requires newId != "" && forall g :: g in db.groups ==> g.id != newId
    ensures var o := CreateWithCode(db, userId, groupName, code, newId, None, None, true);
      var view := GetUserGroup(o.db, userId);
      && view.Ok? && view.value.Some?
      && view.value.value.group == GroupRow(newId, groupName, code, userId)
      && Some(MemberProfile(db.users[userId].name, db.users[userId].profilePicturePath)) in view.value.value.members
  {
    var o := CreateWithCode(db, userId, groupName, code, newId, None, None, true);
    var group := GroupRow(newId, groupName, code, userId);
    GroupsWithFreshId(db.groups, group);
    assert o.db.groups == db.groups + [group];
    assert o.db.users[userId].currentGroupId == Some(newId);
    assert Single(GroupsWhere(o.db.groups, IdColumn, newId)) == Some(group);
    var rows := MembersOfGroup(o.db.members, newId);
    assert MemberRow(newId, userId) in rows;
    var k :| 0 <= k < |rows| && rows[k] == MemberRow(newId, userId);
    assert GetUserGroup(o.db, userId).value.value.members[k] == ProfileOf(o.db.users, userId);
  }

  /** The `current_group_id` update is not checked: when it does not apply,
      `createGroup` still reports the new group, the `users` table is as it
      was, and the admin's `getUserGroup` does not show the new group. */
  lemma UnappliedUpdateHidesCreatedGroup(db: Db, userId: string, groupName: string, code: string, newId: string)
    requires userId in db.users && db.users[userId].currentGroupId != Some(newId)
    ensures var o := CreateWithCode(db, userId, groupName, code, newId, None, None, false);
      var view := GetUserGroup(o.db, userId);
      && o.result == Ok(GroupRow(newId, groupName, code, userId))
      && o.db.users == db.users
      && !(view.Ok? && view.value.Some? && view.value.value.group.id == newId)
  {
  }

  /** A group inserted under an unused id is the only row found under it. */
  lemma GroupsWithFreshId(groups: seq<GroupRow>, group: GroupRow)
    requires forall g :: g in groups ==> g.id != group.id
    ensures GroupsWhere(groups + [group], IdColumn, group.id) == [group]
  {
    var all := groups + [group];
    assert all[..|all| - 1] == groups;
    assert forall i :: 0 <= i < |groups| ==> groups[i] in groups;
    NoGroupWhere(groups, IdColumn, group.id);
  }
}
