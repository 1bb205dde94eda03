/** The user service: the `updates` object `updateUser` sends to the
    `users` table, and the file names `uploadProfilePicture` reads from and
    writes to the `photoprofile` storage bucket. */
module Users {
  import opened Wrappers
  import opened Text

  const NameKey: string := "name"
  const EmailKey: string := "email"
  const PasswordKey: string := "password"

  /** A field of the request body that JavaScript treats as true: present
      and not the empty string. */
  predicate Truthy(body: map<string, string>, key: string) {
    key in body && body[key] != ""
  }

  /** `updateUser`'s `updates`: `name` and `email` copied when truthy, and
      `password` replaced by `hash(password, salt)` when truthy. `hash`
      stands for `bcrypt.hash`, `salt` for the one `bcrypt.genSalt(10)` drew. */
  method BuildUpdates(updateData: map<string, string>, salt: string, hash: (string, string) -> string)
    returns (updates: map<string, string>)
    ensures updates.Keys <= {NameKey, EmailKey, PasswordKey}
    ensures NameKey in updates <==> Truthy(updateData, NameKey)
    ensures NameKey in updates ==> updates[NameKey] == updateData[NameKey]
    ensures EmailKey in updates <==> Truthy(updateData, EmailKey)
    ensures EmailKey in updates ==> updates[EmailKey] == updateData[EmailKey]
    ensures PasswordKey in updates <==> Truthy(updateData, PasswordKey)
    ensures PasswordKey in updates ==> updates[PasswordKey] == hash(updateData[PasswordKey], salt)
  {
    updates := map[];
    if Truthy(updateData, NameKey) {
      updates := updates[NameKey := updateData[NameKey]];
    }
    if Truthy(updateData, EmailKey) {
      updates := updates[EmailKey := updateData[EmailKey]];
    }
    if Truthy(updateData, PasswordKey) {
      var hashed := hash(updateData[PasswordKey], salt);
      updates := updates[PasswordKey := hashed];
    }
  }

  /** The old file name: the last piece of the stored URL split at '/'. */
  function OldFileName(url: string): (name: string)
    ensures '/' !in name
    ensures |name| <= |url| && url[|url| - |name|..] == name
    ensures |name| < |url| ==> url[|url| - |name| - 1] == '/'
  {
    LastPieceIsSuffixAfterLastSep(url, '/');
    Last(Split(url, '/'))
  }

  /** The extracted name is determined by its description: whatever sits
      after a final '/' with no '/' of its own. */
  lemma OldFileNameAfterSlash(prefix: string, name: string)
    requires |prefix| >= 1 && prefix[|prefix| - 1] == '/'
    requires '/' !in name
    ensures OldFileName(prefix + name) == name
  {
    LastPieceAfterSeparator(prefix, name, '/');
  }

  /** A URL without any '/' is its own file name. */
  lemma OldFileNameWithoutSlash(url: string)
    requires '/' !in url
    ensures OldFileName(url) == url
  {
    assert forall i :: 0 <= i < |url| ==> url[i] != '/';
  }

  const AvatarPrefix: string := "avatar_"
  const AvatarSuffix: string := ".png"

  /** The new file name: "avatar_", the user id, '_', the clock in decimal
      and ".png". */
  function NewFileName(userId: string, now: nat): (f: string)
    ensures StartsWith(f, AvatarPrefix) && EndsWith(f, AvatarSuffix)
    ensures |f| == |AvatarPrefix| + |userId| + 1 + |Decimal(now)| + |AvatarSuffix|
  {
    AvatarPrefix + userId + "_" + Decimal(now) + AvatarSuffix
  }

  lemma NewFileNameShape(userId: string, now: nat)
    ensures var f := NewFileName(userId, now);
      && StartsWith(f, AvatarPrefix) && EndsWith(f, AvatarSuffix)
      && f[|AvatarPrefix|..|f| - |AvatarSuffix|] == userId + "_" + Decimal(now)
  {
    var f := NewFileName(userId, now);
    assert f == AvatarPrefix + (userId + "_" + Decimal(now)) + AvatarSuffix;
  }

  /** The digits are what follows the last '_', whatever `userId` holds. */
  lemma NewFileNameTimestamp(userId: string, now: nat)
    ensures var f := NewFileName(userId, now);
      Last(Split(f[|AvatarPrefix|..|f| - |AvatarSuffix|], '_')) == Decimal(now)
  {
    NewFileNameShape(userId, now);
    var d := Decimal(now);
    assert '_' !in d by {
      assert forall i :: 0 <= i < |d| ==> IsDigit(d[i]);
    }
    LastPieceAfterSeparator(userId + "_", d, '_');
    assert userId + "_" + d == (userId + "_") + d;
  }

  /** Distinct (user, timestamp) pairs get distinct file names, even when
      user ids contain '_'. */
  lemma NewFileNameInjective(u1: string, t1: nat, u2: string, t2: nat)
    requires NewFileName(u1, t1) == NewFileName(u2, t2)
    ensures u1 == u2 && t1 == t2
  {
    NewFileNameShape(u1, t1);
    NewFileNameShape(u2, t2);
    NewFileNameTimestamp(u1, t1);
    NewFileNameTimestamp(u2, t2);
    DecimalInjective(t1, t2);
    var s1 := u1 + "_" + Decimal(t1);
    var s2 := u2 + "_" + Decimal(t2);
    assert s1 == s2;
    assert u1 == s1[..|u1|] && u2 == s2[..|u2|];
  }

  /** The name stored back in the row reads back, on the next upload, as
      the file to remove. */
  lemma NewFileNameReadsBack(base: string, userId: string, now: nat)
    requires |base| >= 1 && base[|base| - 1] == '/'
    requires '/' !in userId
    ensures OldFileName(base + NewFileName(userId, now)) == NewFileName(userId, now)
  {
    var f := NewFileName(userId, now);
    var d := Decimal(now);
    assert '/' !in d by {
      assert forall i :: 0 <= i < |d| ==> IsDigit(d[i]);
    }
    assert forall i :: 0 <= i < |f| ==> f[i] != '/' by {
      assert f == AvatarPrefix + userId + "_" + d + AvatarSuffix;
      forall i | 0 <= i < |f| ensures f[i] != '/' {
        if i < 7 + |userId| + 1 + |d| && 7 + |userId| + 1 <= i {
          assert f[i] == d[i - 8 - |userId|];
        } else if 7 <= i < 7 + |userId| {
          assert f[i] == userId[i - 7];
        }
      }
    }
    OldFileNameAfterSlash(base, f);
  }

  /** A user id holding a '/' breaks the round trip: the name read back
      from the stored URL stops at that '/'. */
  lemma SlashInIdBreaksReadBack(base: string, userId: string, now: nat)
    requires '/' in userId
    ensures OldFileName(base + NewFileName(userId, now)) != NewFileName(userId, now)
  {
    var f := NewFileName(userId, now);
    var i :| 0 <= i < |userId| && userId[i] == '/';
    assert f == AvatarPrefix + userId + "_" + Decimal(now) + AvatarSuffix;
    assert f[|AvatarPrefix| + i] == '/';
  }

  /** What one `uploadProfilePicture` call does to storage and the row. */
  datatype Upload = Upload(
    removed: Option<string>,     // the file passed to `remove`, if any
    uploaded: string,            // the file name passed to `upload`
    written: Option<string>,     // the URL written to `profilePicturePath`, if the update was sent
    result: Result<string>)

  /** `uploadProfilePicture`: `storedPath` is the row's `profilePicturePath`
      (`None` also when the row was not found), `base` the bucket's public
      URL prefix, `now` the clock, and the two errors what storage and the
      table report. A failed removal is only logged, so it is not an input. */
  function UploadProfilePicture(storedPath: Option<string>, userId: string, now: nat, base: string,
                                uploadError: Option<string>, updateError: Option<string>): (u: Upload)
    ensures u.uploaded == NewFileName(userId, now)
    ensures u.removed.Some? <==> storedPath.Some? && storedPath.value != "" && OldFileName(storedPath.value) != ""
    ensures u.removed.Some? ==> u.removed.value == OldFileName(storedPath.value)
    ensures uploadError.Some? ==> u.written.None? && u.result == Err("Storage upload failed: " + uploadError.value)
    ensures uploadError.None? ==> u.written == Some(base + u.uploaded)
    ensures uploadError.None? && updateError.Some? ==> u.result == Err("Database update failed: " + updateError.value)
    ensures u.result.Ok? <==> uploadError.None? && updateError.None?
    ensures u.result.Ok? ==> u.written == Some(u.result.value)
  {
    var removed :=
      if storedPath.Some? && storedPath.value != "" && OldFileName(storedPath.value) != ""
      then Some(OldFileName(storedPath.value)) else None;
    var fileName := NewFileName(userId, now);
    if uploadError.Some? then
      Upload(removed, fileName, None, Err("Storage upload failed: " + uploadError.value))
    else
      var publicUrl := base + fileName;
      if updateError.Some? then
        Upload(removed, fileName, Some(publicUrl), Err("Database update failed: " + updateError.value))
      else Upload(removed, fileName, Some(publicUrl), Ok(publicUrl))
  }

  /** Two uploads in a row: the second removes exactly the file the first
      uploaded. */
  lemma SecondUploadRemovesFirst(userId: string, t1: nat, t2: nat, base: string)
    requires |base| >= 1 && base[|base| - 1] == '/'
    requires '/' !in userId
    ensures var first := UploadProfilePicture(None, userId, t1, base, None, None);
      var second := UploadProfilePicture(first.written, userId, t2, base, None, None);
      second.removed == Some(first.uploaded)
  {
    NewFileNameReadsBack(base, userId, t1);
    assert |NewFileName(userId, t1)| > 0 by {
      assert |AvatarPrefix| == 7;
    }
  }
}
