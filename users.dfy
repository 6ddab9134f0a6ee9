/**
 * `AddOrGetUser` and `FindUser` on the user list: a find-or-add keyed by login,
 * compared with ordinal ignore-case equality.
 */
module Users {
  import opened Wrappers
  import opened Text
  import opened Models
  import opened Lists

  /** The matcher `u => string.Equals(u.Login, login, StringComparison.OrdinalIgnoreCase)`. */
  function LoginIs(login: string): AppUser -> bool {
    (u: AppUser) => EqualsIgnoreCase(u.login, login)
  }

  /** The position of the first user whose login matches, or -1. */
  function LoginIndex(users: seq<AppUser>, login: string): int {
    FirstIndex(users, LoginIs(login))
  }

  /** No two users share a login up to case. */
  predicate LoginsDistinct(users: seq<AppUser>) {
    forall i, j :: 0 <= i < j < |users| ==> !EqualsIgnoreCase(users[i].login, users[j].login)
  }

  /** Every stored login is non-blank and trimmed, and every role is non-blank. */
  predicate UsersWellFormed(users: seq<AppUser>) {
    forall u :: u in users ==> u.login != [] && Trim(u.login) == u.login && !IsBlank(u.role)
  }

  /** `AddOrGetUser` as the source writes it: the lookup uses the login as given,
      while the user it adds stores the trimmed login. Returns the user and the
      new list. */
  function AddOrGetAsWritten(users: seq<AppUser>, login: string, role: string): (r: Result<(AppUser, seq<AppUser>), ArgumentError>)
    ensures r.Err? <==> IsBlank(login) || IsBlank(role)
    ensures IsBlank(login) ==> r == Err(ArgumentException("login", "Login cannot be empty."))
    ensures !IsBlank(login) && IsBlank(role) ==> r == Err(ArgumentException("role", "Role cannot be empty."))
    ensures r.Ok? ==> users <= r.value.1 && |r.value.1| <= |users| + 1 && r.value.0 in r.value.1
  {
    if IsBlank(login) then Err(ArgumentException("login", "Login cannot be empty."))
    else if IsBlank(role) then Err(ArgumentException("role", "Role cannot be empty."))
    else
      var k := LoginIndex(users, login);
      if k >= 0 then Ok((users[k], users))
      else
        var user := AppUser(Trim(login), role);
        Ok((user, users + [user]))
  }

  /** As written, a success returns the first stored user whose login matches
      the raw login up to case and adds nothing, or, when none matches, appends
      and returns a user holding the trimmed login and the role. */
  lemma AsWrittenReturnsMatch(users: seq<AppUser>, login: string, role: string)
    requires AddOrGetAsWritten(users, login, role).Ok?
    ensures var (u, users') := AddOrGetAsWritten(users, login, role).value;
            && (users' == users <==> exists v :: v in users && EqualsIgnoreCase(v.login, login))
            && (users' == users ==>
                  exists i :: 0 <= i < |users| && u == users[i] && EqualsIgnoreCase(u.login, login)
                              && forall j :: 0 <= j < i ==> !EqualsIgnoreCase(users[j].login, login))
            && (users' != users ==> u == AppUser(Trim(login), role) && users' == users + [u])
  {
    var (u, users') := AddOrGetAsWritten(users, login, role).value;
    var k := LoginIndex(users, login);
    FirstIndexFound(users, LoginIs(login));
    if k >= 0 {
      assert u == users[k] && users' == users;
      forall j | 0 <= j < k
        ensures !EqualsIgnoreCase(users[j].login, login)
      {
        assert !LoginIs(login)(users[j]);
      }
      assert LoginIs(login)(users[k]);
    } else {
      assert users' == users + [u];
      assert users' != users by { assert |users'| != |users|; }
      forall v | v in users
        ensures !EqualsIgnoreCase(v.login, login)
      {
        var i :| 0 <= i < |users| && users[i] == v;
        assert !LoginIs(login)(users[i]);
      }
    }
  }

  /** As written, two calls with a login that has surrounding white space add
      the same trimmed login twice, so the list no longer has distinct logins. */
  lemma AsWrittenAddsDuplicate()
    ensures AddOrGetAsWritten([], " bob", "User") == Ok((AppUser("bob", "User"), [AppUser("bob", "User")]))
    ensures AddOrGetAsWritten([AppUser("bob", "User")], " bob", "User")
            == Ok((AppUser("bob", "User"), [AppUser("bob", "User"), AppUser("bob", "User")]))
    ensures !LoginsDistinct([AppUser("bob", "User"), AppUser("bob", "User")])
  {
    var bob := " bob";
    assert !IsWhiteSpace(bob[1]) && !IsWhiteSpace("User"[0]);
    assert Trim(bob) == "bob" by {
      assert bob[1..] == "bob";
      assert !IsWhiteSpace("bob"[0]);
      TrimOfTrimmed("bob");
    }
    var user := AppUser("bob", "User");
    var none: seq<AppUser> := [];
    assert LoginIndex(none, bob) == -1;
    assert AddOrGetAsWritten(none, bob, "User") == Ok((user, none + [user]));
    assert none + [user] == [user];
    assert LoginIndex([user], bob) == -1 by {
      assert |ToUpper("bob")| != |ToUpper(bob)|;
      assert !LoginIs(bob)(user);
    }
    assert AddOrGetAsWritten([user], bob, "User") == Ok((user, [user] + [user]));
    assert [user] + [user] == [user, user];
    var twice := [user, user];
    assert EqualsIgnoreCase(twice[0].login, twice[1].login);
  }

  /** `AddOrGetUser` as intended: the lookup uses the same trimmed login that is
      stored, so a match is found whenever the stored user would repeat one. */
  function AddOrGet(users: seq<AppUser>, login: string, role: string): (r: Result<(AppUser, seq<AppUser>), ArgumentError>)
    ensures r.Err? <==> IsBlank(login) || IsBlank(role)
    ensures IsBlank(login) ==> r == Err(ArgumentException("login", "Login cannot be empty."))
    ensures !IsBlank(login) && IsBlank(role) ==> r == Err(ArgumentException("role", "Role cannot be empty."))
    ensures r.Ok? ==> users <= r.value.1 && |r.value.1| <= |users| + 1 && r.value.0 in r.value.1
  {
    if IsBlank(login) then Err(ArgumentException("login", "Login cannot be empty."))
    else if IsBlank(role) then Err(ArgumentException("role", "Role cannot be empty."))
    else
      var key := Trim(login);
      var k := LoginIndex(users, key);
      if k >= 0 then Ok((users[k], users))
      else
        var user := AppUser(key, role);
        Ok((user, users + [user]))
  }

  /** The fix is the code as written with the login trimmed before anything
      else: the lookup and the stored user then use the same key. */
  lemma AddOrGetTrimsFirst(users: seq<AppUser>, login: string, role: string)
    ensures AddOrGet(users, login, role) == AddOrGetAsWritten(users, Trim(login), role)
  {
    var key := Trim(login);
    TrimIdempotent(login);
    assert IsBlank(login) <==> IsBlank(key);
    if IsBlank(login) {
      assert AddOrGet(users, login, role) == Err(ArgumentException("login", "Login cannot be empty."));
      assert AddOrGetAsWritten(users, key, role) == Err(ArgumentException("login", "Login cannot be empty."));
    } else if IsBlank(role) {
      assert AddOrGet(users, login, role) == Err(ArgumentException("role", "Role cannot be empty."));
      assert AddOrGetAsWritten(users, key, role) == Err(ArgumentException("role", "Role cannot be empty."));
    } else {
      var k := LoginIndex(users, key);
      if k >= 0 {
        assert AddOrGet(users, login, role) == Ok((users[k], users));
        assert AddOrGetAsWritten(users, key, role) == Ok((users[k], users));
      } else {
        var u := AppUser(key, role);
        assert AddOrGet(users, login, role) == Ok((u, users + [u]));
        assert AddOrGetAsWritten(users, key, role) == Ok((u, users + [u]));
      }
    }
  }

  /** The fix changes nothing for a login that is already trimmed, as every
      login the application passes is. */
  lemma AsWrittenAgreesOnTrimmedLogin(users: seq<AppUser>, login: string, role: string)
    requires Trim(login) == login
    ensures AddOrGetAsWritten(users, login, role) == AddOrGet(users, login, role)
  {
    AddOrGetTrimsFirst(users, login, role);
  }

  /** On success the returned user matches the login up to case and is in the
      new list, which extends the old one by at most that user. */
  lemma AddOrGetReturnsMatch(users: seq<AppUser>, login: string, role: string)
    requires AddOrGet(users, login, role).Ok?
    ensures var (u, users') := AddOrGet(users, login, role).value;
            && EqualsIgnoreCase(u.login, Trim(login))
            && u in users'
            && (users' == users || users' == users + [u])
            && (users' == users <==> exists v :: v in users && EqualsIgnoreCase(v.login, Trim(login)))
  {
    var (u, users') := AddOrGet(users, login, role).value;
    FirstIndexFound(users, LoginIs(Trim(login)));
    if users' == users + [u] {
      assert users' != users by { assert |users'| != |users|; }
    }
    if exists v :: v in users && EqualsIgnoreCase(v.login, Trim(login)) {
      var v :| v in users && EqualsIgnoreCase(v.login, Trim(login));
      var i :| 0 <= i < |users| && users[i] == v;
      assert LoginIs(Trim(login))(users[i]);
    }
  }

  /** Calling `AddOrGet` a second time with the same login returns the same
      user and adds nothing, whatever role the second call names. */
  lemma AddOrGetIdempotent(users: seq<AppUser>, login: string, role: string, role2: string)
    requires AddOrGet(users, login, role).Ok? && !IsBlank(role2)
    ensures var (u, users') := AddOrGet(users, login, role).value;
            AddOrGet(users', login, role2) == Ok((u, users'))
  {
    var (u, users') := AddOrGet(users, login, role).value;
    var key := Trim(login);
    if LoginIndex(users, key) < 0 {
      FirstIndexAppend(users, u, LoginIs(key));
      assert LoginIs(key)(u);
      assert users'[|users|] == u;
    }
  }

  /** Adding a user keeps logins distinct up to case and keeps every stored
      login trimmed and non-blank. */
  lemma AddOrGetKeepsInvariant(users: seq<AppUser>, login: string, role: string)
    requires LoginsDistinct(users) && UsersWellFormed(users)
    requires AddOrGet(users, login, role).Ok?
    ensures LoginsDistinct(AddOrGet(users, login, role).value.1)
    ensures UsersWellFormed(AddOrGet(users, login, role).value.1)
  {
    var key := Trim(login);
    TrimIdempotent(login);
    var k := LoginIndex(users, key);
    if k >= 0 {
      assert AddOrGet(users, login, role) == Ok((users[k], users));
    } else {
      var u := AppUser(key, role);
      var users' := users + [u];
      assert AddOrGet(users, login, role) == Ok((u, users'));
      forall i, j | 0 <= i < j < |users'|
        ensures !EqualsIgnoreCase(users'[i].login, users'[j].login)
      {
        assert users'[i] == users[i];
        if j == |users| {
          assert !LoginIs(key)(users[i]);
        } else {
          assert users'[j] == users[j];
        }
      }
      assert key != [] && Trim(key) == key && !IsBlank(role);
      forall v | v in users' ensures v.login != [] && Trim(v.login) == v.login && !IsBlank(v.role) {
        if v != u {
          assert v in users;
        }
      }
    }
  }

  /** `FindUser`: nothing for a blank login, otherwise the first user whose
      login matches up to case, if any. */
  function Find(users: seq<AppUser>, login: string): (r: Option<AppUser>)
    ensures IsBlank(login) ==> r == None
    ensures !IsBlank(login) && r == None ==> forall u :: u in users ==> !EqualsIgnoreCase(u.login, login)
    ensures r.Some? ==> exists k :: 0 <= k < |users| && users[k] == r.value
                                    && EqualsIgnoreCase(users[k].login, login)
                                    && forall i :: 0 <= i < k ==> !EqualsIgnoreCase(users[i].login, login)
  {
    if IsBlank(login) then None
    else
      var k := LoginIndex(users, login);
      if k >= 0 then Some(users[k]) else None
  }

  /** `AddOrGet` and `Find` agree: after adding or getting a login, looking up
      its trimmed form returns the same user. */
  lemma FindAfterAddOrGet(users: seq<AppUser>, login: string, role: string)
    requires AddOrGet(users, login, role).Ok?
    ensures var (u, users') := AddOrGet(users, login, role).value;
            Find(users', Trim(login)) == Some(u)
  {
    var key := Trim(login);
    TrimIdempotent(login);
    assert !IsBlank(key);
    var k := LoginIndex(users, key);
    if k >= 0 {
      assert AddOrGet(users, login, role) == Ok((users[k], users));
      assert Find(users, key) == Some(users[k]);
    } else {
      var u := AppUser(key, role);
      var users' := users + [u];
      assert AddOrGet(users, login, role) == Ok((u, users'));
      FirstIndexAppend(users, u, LoginIs(key));
      assert LoginIs(key)(u);
      assert users'[|users|] == u;
      assert LoginIndex(users', key) == |users|;
    }
  }
}
